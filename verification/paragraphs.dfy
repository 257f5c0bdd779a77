/** `formatToHTML`: the message text is scanned once; every newline alternately opens
    and closes a paragraph, double quotes are dropped (the text is later embedded in an
    HTML attribute), and every other character is copied.

    The output is described through the sequence of pieces the scan emits, because a
    message may itself contain the characters `<p>`; "remove the emitted tags" is only
    meaningful on pieces, not on the rendered string. */
module Paragraphs {
  import opened Strings

  /** One emitted piece of output: an opening tag, a closing tag, or a copied character. */
  datatype Piece = Open | Close | Char(c: char)

  function PieceText(p: Piece): string {
    match p
    case Open => "<p>"
    case Close => "</p>"
    case Char(c) => [c]
  }

  /** The string a sequence of pieces renders to. */
  function Render(ps: seq<Piece>): string
    decreases |ps|
  {
    if ps == [] then "" else Render(ps[..|ps| - 1]) + PieceText(ps[|ps| - 1])
  }

  /** The `closetag` flag after scanning `s`: a paragraph is open after an odd number of
      newlines. */
  predicate ParagraphOpen(s: string) {
    Count(s, '\n') % 2 == 1
  }

  /** What the scan emits for one character, given whether a paragraph is open. */
  function Step(c: char, open: bool): seq<Piece> {
    if c == '\n' then (if open then [Close] else [Open])
    else if c == '"' then []
    else [Char(c)]
  }

  /** The pieces emitted for `s`, in order. */
  function Pieces(s: string): seq<Piece>
    decreases |s|
  {
    if s == [] then []
    else Pieces(s[..|s| - 1]) + Step(s[|s| - 1], ParagraphOpen(s[..|s| - 1]))
  }

  // ---------------------------------------------------------------------------
  // Reference views: the copied text and the tags
  // ---------------------------------------------------------------------------

  /** What survives of one character once newlines and double quotes are removed. */
  function Kept(c: char): string {
    if c == '\n' || c == '"' then "" else [c]
  }

  /** The characters of `s` other than newlines and double quotes, in order. */
  function Filtered(s: string): string
    decreases |s|
  {
    if s == [] then "" else Filtered(s[..|s| - 1]) + Kept(s[|s| - 1])
  }

  /** The characters carried by the `Char` pieces, in order. */
  function TextOf(ps: seq<Piece>): string
    decreases |ps|
  {
    if ps == [] then ""
    else TextOf(ps[..|ps| - 1]) + (if ps[|ps| - 1].Char? then [ps[|ps| - 1].c] else "")
  }

  /** The tag pieces, in order. */
  function TagsOf(ps: seq<Piece>): seq<Piece>
    decreases |ps|
  {
    if ps == [] then []
    else TagsOf(ps[..|ps| - 1]) + (if ps[|ps| - 1].Char? then [] else [ps[|ps| - 1]])
  }

  /** The tag at position `i` of an alternation that starts with an opening tag. */
  function TagAt(i: nat): Piece {
    if i % 2 == 0 then Open else Close
  }

  /** `n` tags alternating from an opening one: `<p>`, `</p>`, `<p>`, ... */
  function Alternating(n: nat): (tags: seq<Piece>)
    ensures |tags| == n
  {
    if n == 0 then [] else Alternating(n - 1) + [TagAt(n - 1)]
  }

  // ---------------------------------------------------------------------------
  // The scan, as written
  // ---------------------------------------------------------------------------

  lemma RenderSnoc(ps: seq<Piece>, extra: seq<Piece>)
    requires |extra| <= 1
    ensures Render(ps + extra) == Render(ps) + Render(extra)
  {
    if |extra| == 1 {
      assert (ps + extra)[..|ps|] == ps;
      assert extra[..0] == [];
    } else {
      assert ps + extra == ps;
    }
  }

  lemma CountPrefix(s: string, i: nat, c: char)
    requires i < |s|
    ensures Count(s[..i + 1], c) == Count(s[..i], c) + (if s[i] == c then 1 else 0)
  {
    assert s[..i + 1] == s[..i] + [s[i]];
    assert multiset(s[..i + 1]) == multiset(s[..i]) + multiset{s[i]};
  }

  /** Scanning one more character appends that character's step. */
  lemma ScanStep(s: string, i: nat)
    requires i < |s|
    ensures Pieces(s[..i + 1]) == Pieces(s[..i]) + Step(s[i], ParagraphOpen(s[..i]))
  {
    var prefix := s[..i + 1];
    assert prefix[..i] == s[..i] && prefix[i] == s[i];
  }

  /** ... and renders to the text so far followed by that step's text. */
  lemma ScanRender(s: string, i: nat)
    requires i < |s|
    ensures Render(Pieces(s[..i + 1]))
         == Render(Pieces(s[..i])) + Render(Step(s[i], ParagraphOpen(s[..i])))
  {
    ScanStep(s, i);
    RenderSnoc(Pieces(s[..i]), Step(s[i], ParagraphOpen(s[..i])));
  }

  /** A newline toggles the `closetag` flag; any other character leaves it. */
  lemma ScanFlag(s: string, i: nat)
    requires i < |s|
    ensures ParagraphOpen(s[..i + 1])
         == (if s[i] == '\n' then !ParagraphOpen(s[..i]) else ParagraphOpen(s[..i]))
  {
    CountPrefix(s, i, '\n');
  }

  /** The rendering of a non-empty text is that of all but its last character followed
      by the last character's step. */
  lemma RenderLast(s: string)
    requires s != []
    ensures Render(Pieces(s))
         == Render(Pieces(s[..|s| - 1])) + Render(Step(s[|s| - 1], ParagraphOpen(s[..|s| - 1])))
  {
    RenderSnoc(Pieces(s[..|s| - 1]), Step(s[|s| - 1], ParagraphOpen(s[..|s| - 1])));
  }

  /** The text each step renders to. */
  lemma StepText(c: char, open: bool)
    ensures Render(Step(c, open))
         == if c == '\n' then (if open then "</p>" else "<p>")
            else if c == '"' then ""
            else [c]
  {
    var st := Step(c, open);
    if |st| == 1 {
      assert st[..0] == [];
    }
  }

  /** Any character other than a newline renders to what `Kept` leaves of it. */
  lemma StepKept(c: char, open: bool)
    requires c != '\n'
    ensures Render(Step(c, open)) == Kept(c)
  {
    StepText(c, open);
  }

  /** `formatToHTML(message)`: the loop of the source, with its `closetag` flag. */
  method FormatToHTML(message: string) returns (rebuilt: string)
    ensures rebuilt == Render(Pieces(message))
    ensures '\n' !in rebuilt && '"' !in rebuilt
  {
    rebuilt := "";
    var closeTag := false;
    var i := 0;
    while i < |message|
      invariant 0 <= i <= |message|
      invariant rebuilt == Render(Pieces(message[..i]))
      invariant closeTag == ParagraphOpen(message[..i])
    {
      ScanRender(message, i);
      ScanFlag(message, i);
      StepText(message[i], closeTag);
      if message[i] == '\n' {
        if closeTag {
          rebuilt := rebuilt + "</p>";
          closeTag := false;
        } else {
          rebuilt := rebuilt + "<p>";
          closeTag := true;
        }
      } else if message[i] != '"' {
        rebuilt := rebuilt + [message[i]];
      }
      i := i + 1;
    }
    assert message[..i] == message;
    RenderedHasNoNewlineOrQuote(message);
  }

  /** No step emits a newline or a double quote. */
  lemma StepClean(c: char, open: bool)
    ensures '\n' !in Render(Step(c, open)) && '"' !in Render(Step(c, open))
  {
    StepText(c, open);
    var close: string := "</p>";
    var op: string := "<p>";
    assert close == ['<', '/', 'p', '>'];
    assert op == ['<', 'p', '>'];
  }

  lemma NotInAppend<T>(a: seq<T>, b: seq<T>, x: T)
    requires x !in a && x !in b
    ensures x !in a + b
  {
  }

  /** The rendering never contains a newline or a double quote. */
  lemma {:induction false} RenderedHasNoNewlineOrQuote(s: string)
    ensures '\n' !in Render(Pieces(s)) && '"' !in Render(Pieces(s))
    decreases |s|
  {
    if s != [] {
      var init := s[..|s| - 1];
      RenderedHasNoNewlineOrQuote(init);
      RenderLast(s);
      var piece := Render(Step(s[|s| - 1], ParagraphOpen(init)));
      StepClean(s[|s| - 1], ParagraphOpen(init));
      NotInAppend(Render(Pieces(init)), piece, '\n');
      NotInAppend(Render(Pieces(init)), piece, '"');
    }
  }

  // ---------------------------------------------------------------------------
  // Properties of the emitted pieces
  // ---------------------------------------------------------------------------

  lemma TextOfSnoc(ps: seq<Piece>, extra: seq<Piece>)
    requires |extra| <= 1
    ensures TextOf(ps + extra) == TextOf(ps) + TextOf(extra)
  {
    if |extra| == 1 {
      assert (ps + extra)[..|ps|] == ps;
      assert extra[..0] == [];
    } else {
      assert ps + extra == ps;
    }
  }

  lemma TagsOfSnoc(ps: seq<Piece>, extra: seq<Piece>)
    requires |extra| <= 1
    ensures TagsOf(ps + extra) == TagsOf(ps) + TagsOf(extra)
  {
    if |extra| == 1 {
      assert (ps + extra)[..|ps|] == ps;
      assert extra[..0] == [];
    } else {
      assert ps + extra == ps;
    }
  }

  /** Removing the emitted tags leaves exactly the message without its newlines and
      double quotes, in the original order. */
  lemma {:induction false} ParagraphsKeepText(s: string)
    ensures TextOf(Pieces(s)) == Filtered(s)
    decreases |s|
  {
    if s != [] {
      var init := s[..|s| - 1];
      var c := s[|s| - 1];
      ParagraphsKeepText(init);
      TextOfSnoc(Pieces(init), Step(c, ParagraphOpen(init)));
      assert TextOf([]) == "";
      if c != '\n' && c != '"' {
        assert [Char(c)][..0] == [];
      }
    }
  }

  lemma TagsOfStep(c: char, open: bool)
    ensures TagsOf(Step(c, open)) == if c == '\n' then Step(c, open) else []
  {
    var st := Step(c, open);
    if |st| == 1 {
      assert st[..0] == [];
    }
  }

  /** The next alternating tag is the one a newline emits. */
  lemma AlternatingNext(n: nat)
    ensures Alternating(n + 1) == Alternating(n) + Step('\n', n % 2 == 1)
  {
  }

  /** Scanning one more character adds a tag exactly when that character is a newline. */
  lemma TagsScan(s: string, i: nat)
    requires i < |s|
    ensures TagsOf(Pieces(s[..i + 1]))
         == TagsOf(Pieces(s[..i])) + (if s[i] == '\n' then Step('\n', ParagraphOpen(s[..i])) else [])
  {
    ScanStep(s, i);
    TagsOfSnoc(Pieces(s[..i]), Step(s[i], ParagraphOpen(s[..i])));
    TagsOfStep(s[i], ParagraphOpen(s[..i]));
  }

  /** The emitted tags alternate, starting with an opening tag, one per newline. */
  lemma {:induction false} ParagraphsTagsAlternate(s: string)
    ensures TagsOf(Pieces(s)) == Alternating(Count(s, '\n'))
    decreases |s|
  {
    if s != [] {
      var i := |s| - 1;
      var n := Count(s[..i], '\n');
      ParagraphsTagsAlternate(s[..i]);
      TagsScan(s, i);
      CountPrefix(s, i, '\n');
      assert s[..i + 1] == s;
      if s[i] == '\n' {
        AlternatingNext(n);
      } else {
        assert Alternating(n) + [] == Alternating(n);
      }
    }
  }

  lemma TagCountsSnoc(tags: seq<Piece>, x: Piece)
    ensures multiset(tags + [x])[Open] == multiset(tags)[Open] + (if x == Open then 1 else 0)
    ensures multiset(tags + [x])[Close] == multiset(tags)[Close] + (if x == Close then 1 else 0)
  {
    assert multiset(tags + [x]) == multiset(tags) + multiset{x};
  }

  lemma AlternatingSnoc(n: nat)
    ensures Alternating(n + 1) == Alternating(n) + [TagAt(n)]
  {
  }

  lemma EvenOdd(k: nat)
    ensures TagAt(2 * k) == Open && TagAt(2 * k + 1) == Close
  {
  }

  /** An even number `2k` of alternating tags holds `k` of each kind. */
  lemma {:induction false} AlternatingPairs(k: nat)
    ensures multiset(Alternating(2 * k))[Open] == k
    ensures multiset(Alternating(2 * k))[Close] == k
  {
    if k > 0 {
      var j := k - 1;
      AlternatingPairs(j);
      var even := Alternating(2 * j);
      var odd := Alternating(2 * j + 1);
      AlternatingSnoc(2 * j);
      AlternatingSnoc(2 * j + 1);
      EvenOdd(j);
      assert odd == even + [Open];
      TagCountsSnoc(even, Open);
      assert 2 * k == 2 * j + 2;
      assert Alternating(2 * k) == odd + [Close];
      TagCountsSnoc(odd, Close);
    }
  }

  /** Of `n` alternating tags, ceil(n/2) open and floor(n/2) close. */
  lemma AlternatingCounts(n: nat)
    ensures multiset(Alternating(n))[Open] == (n + 1) / 2
    ensures multiset(Alternating(n))[Close] == n / 2
  {
    var k := n / 2;
    AlternatingPairs(k);
    if n % 2 == 1 {
      assert n == 2 * k + 1 && (n + 1) / 2 == k + 1;
      AlternatingSnoc(2 * k);
      EvenOdd(k);
      TagCountsSnoc(Alternating(2 * k), Open);
    } else {
      assert n == 2 * k && (n + 1) / 2 == k;
    }
  }

  /** An odd number of alternating tags ends with an opening tag. */
  lemma AlternatingLast(n: nat)
    requires n % 2 == 1
    ensures Alternating(n)[n - 1] == Open
  {
  }

  /** With `n` newlines the output holds ceil(n/2) opening and floor(n/2) closing tags,
      `n` in all; an odd count leaves the last paragraph open. */
  lemma ParagraphTagCounts(s: string)
    ensures |TagsOf(Pieces(s))| == Count(s, '\n')
    ensures multiset(TagsOf(Pieces(s)))[Open] == (Count(s, '\n') + 1) / 2
    ensures multiset(TagsOf(Pieces(s)))[Close] == Count(s, '\n') / 2
    ensures Count(s, '\n') % 2 == 1 ==> TagsOf(Pieces(s))[Count(s, '\n') - 1] == Open
  {
    var n := Count(s, '\n');
    ParagraphsTagsAlternate(s);
    AlternatingCounts(n);
    if n % 2 == 1 {
      AlternatingLast(n);
    }
  }

  /** Text without newlines leaves the `closetag` flag as it was. */
  lemma AppendNoNewlineFlag(p: string, t: string)
    requires '\n' !in t
    ensures ParagraphOpen(p + t) == ParagraphOpen(p)
  {
    assert multiset(p + t) == multiset(p) + multiset(t);
    assert multiset(t)['\n'] == 0;
  }

  lemma AppendAssoc<T>(a: seq<T>, b: seq<T>, c: seq<T>)
    ensures (a + b) + c == a + (b + c)
  {
  }

  lemma FilteredSlice(s: string, k: nat, i: nat)
    requires k < i <= |s|
    ensures Filtered(s[k..i]) == Filtered(s[k..i - 1]) + Kept(s[i - 1])
  {
    assert s[k..i][..i - 1 - k] == s[k..i - 1];
  }

  /** Scanning on through characters other than newlines appends those characters,
      less their double quotes, to the output. */
  lemma {:induction false} ScanNoNewline(s: string, k: nat, i: nat)
    requires k <= i <= |s|
    requires forall j :: k <= j < i ==> s[j] != '\n'
    ensures Render(Pieces(s[..i])) == Render(Pieces(s[..k])) + Filtered(s[k..i])
    decreases i
  {
    if i == k {
      assert s[k..i] == [];
    } else {
      ScanNoNewline(s, k, i - 1);
      ScanRender(s, i - 1);
      StepKept(s[i - 1], ParagraphOpen(s[..i - 1]));
      FilteredSlice(s, k, i);
      AppendAssoc(Render(Pieces(s[..k])), Filtered(s[k..i - 1]), Kept(s[i - 1]));
    }
  }

  /** Appending text without newlines to a message appends that text, less its double
      quotes, to the output. */
  lemma AppendNoNewline(p: string, t: string)
    requires '\n' !in t
    ensures Render(Pieces(p + t)) == Render(Pieces(p)) + Filtered(t)
  {
    var s := p + t;
    forall j | |p| <= j < |s|
      ensures s[j] != '\n'
    {
      assert s[j] == t[j - |p|];
    }
    ScanNoNewline(s, |p|, |s|);
    assert s[..|s|] == s && s[..|p|] == p && s[|p|..|s|] == t;
  }

  /** A message without newlines gets no tags: its rendering is the message with its
      double quotes removed. */
  lemma NoNewlineNoTags(s: string)
    requires '\n' !in s
    ensures Render(Pieces(s)) == Filtered(s)
  {
    AppendNoNewline([], s);
    assert [] + s == s;
  }

  /** Text with neither newlines nor double quotes passes through unchanged. */
  lemma {:induction false} FilteredPlain(s: string)
    requires '\n' !in s && '"' !in s
    ensures Filtered(s) == s
    decreases |s|
  {
    if s != [] {
      var u := s[..|s| - 1];
      assert s == u + [s[|s| - 1]];
      FilteredPlain(u);
    }
  }

  /** A lone newline opens a paragraph. */
  lemma LoneNewline()
    ensures Render(Pieces("\n")) == "<p>"
    ensures ParagraphOpen("\n")
  {
    assert multiset("\n")['\n'] == 1;
  }

  /** Text without newlines between a leading and a trailing newline becomes exactly
      one paragraph. */
  lemma OneParagraph(t: string)
    requires '\n' !in t
    ensures Render(Pieces("\n" + t + "\n")) == "<p>" + Filtered(t) + "</p>"
  {
    var s := "\n" + t + "\n";
    var m := |s| - 1;
    assert s[0] == '\n' && s[m] == '\n';
    LoneNewline();
    assert s[..1] == "\n" && s[1..m] == t && s[..m] == "\n" + t;
    assert Render(Pieces(s[..m])) == "<p>" + Filtered(t) by {
      forall j | 1 <= j < m
        ensures s[j] != '\n'
      {
        assert s[j] == t[j - 1];
      }
      ScanNoNewline(s, 1, m);
    }
    assert ParagraphOpen(s[..m]) by {
      AppendNoNewlineFlag("\n", t);
    }
    RenderLast(s);
    StepText('\n', true);
    AppendAssoc("<p>", Filtered(t), "</p>");
  }

  /** A word between two newlines becomes one paragraph. */
  lemma FormatHelloExample()
    ensures Render(Pieces("\nHello\n")) == "<p>Hello</p>"
  {
    var word := "Hello";
    assert '\n' !in word && '"' !in word;
    assert "\n" + word + "\n" == "\nHello\n";
    OneParagraph(word);
    FilteredPlain(word);
    HelloParagraph();
  }

  /** The literal step of the hello example, kept apart so the solver reasons about the
      concatenation once and not inside the larger proof. */
  lemma HelloParagraph()
    ensures "<p>" + "Hello" + "</p>" == "<p>Hello</p>"
  {
  }

  /** Filtering works piece by piece. */
  lemma {:induction false} FilteredAppend(a: string, b: string)
    ensures Filtered(a + b) == Filtered(a) + Filtered(b)
    decreases |b|
  {
    if b == [] {
      assert a + b == a;
    } else {
      var u := b[..|b| - 1];
      var c := b[|b| - 1];
      assert (a + b)[..|a + b| - 1] == a + u;
      assert (a + b)[|a + b| - 1] == c;
      assert Filtered(b) == Filtered(u) + Kept(c);
      FilteredAppend(a, u);
      AppendAssoc(Filtered(a), Filtered(u), Kept(c));
    }
  }

  /** Quoted plain text loses its quotes and nothing else. */
  lemma QuotedPlain(said: string, hi: string, q: string)
    requires '\n' !in said && '"' !in said && '\n' !in hi && '"' !in hi && q == "\""
    ensures Render(Pieces(((said + q) + hi) + q)) == said + hi
  {
    var x2 := said + q;
    var x3 := x2 + hi;
    var s := x3 + q;
    assert '\n' !in s by {
      NotInAppend(said, q, '\n');
      NotInAppend(x2, hi, '\n');
      NotInAppend(x3, q, '\n');
    }
    NoNewlineNoTags(s);
    assert Filtered(q) == "" by {
      assert q[..0] == [];
    }
    FilteredPlain(said);
    FilteredPlain(hi);
    FilteredAppend(said, q);
    assert Filtered(x2) == said;
    FilteredAppend(x2, hi);
    assert Filtered(x3) == said + hi;
    FilteredAppend(x3, q);
  }

  /** A quotation loses its quotes and, with no newline, no
      tag is emitted. */
  lemma FormatQuoteExample()
    ensures Render(Pieces("He said \"hi\"")) == "He said hi"
  {
    var said := "He said ";
    var hi := "hi";
    var q := "\"";
    QuoteSentence(said, hi, q);
    QuotedPlain(said, hi, q);
    SaidHi();
  }

  /** The quote example's input assembled from its parts; kept apart so the solver
      does not unfold the literal inside the larger proof. */
  lemma QuoteSentence(said: string, hi: string, q: string)
    requires said == "He said " && hi == "hi" && q == "\""
    ensures ((said + q) + hi) + q == "He said \"hi\""
  {
  }

  /** The quote example's expected output, kept apart for the same reason. */
  lemma SaidHi()
    ensures "He said " + "hi" == "He said hi"
  {
  }
}
