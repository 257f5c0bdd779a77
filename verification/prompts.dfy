/** The text the server sends to the language and image services while it builds a card
    (`finalizeArt` and `finalizeMessage` in server.js). The services themselves are
    parameters: a completion service and an image service each take a prompt and either
    answer or fail. */
module Prompts {
  import opened Wrappers
  import opened Presets
  import opened JsValues

  /** The service a prompt is sent to: its answer, or `None` when the call throws. */
  type Service = string -> Option<string>

  /** The opening the four preset meta-prompts share. */
  const PresetMetaOpening: string := "Write a brief idea for "
  const ChristmasMeta: string := PresetMetaOpening
    + "some Christmas card art, possibly including Santa Claus, Christmas trees, or reindeer:"
  const WinterLandscapeMeta: string := PresetMetaOpening + "a beautiful winter landscape painting:"
  const FineArtMeta: string := PresetMetaOpening + "a beautiful example of fine art painting:"
  const NativityMeta: string := PresetMetaOpening + "an image depiction of the nativity scene and its medium:"
  /** The meta-prompt for free text, which the text itself follows. */
  const GenericMetaPrefix: string := "Write an brief idea for an image, described as: "

  /** Appended to the art prompt when the completion service fails. */
  const FallbackStyle: string := ", a detailed painting"
  /** Returned instead of an image when the image service fails. */
  const PlaceholderImage: string := "https://alphajot.com/images/example.png"

  const MessageIntro: string := "Write brief, unique text for a Christmas greeting card to "
  /** The recipient is followed by this, and then by the requested details. */
  const DetailsOpening: string := ". Details: should be \""
  /** Closes the quoted details. */
  const DetailsClosing: string := "\". "
  const NamedSenderPrefix: string := "Name of sender: "
  const AnonymousClause: string := "From an anonymous sender."

  /** The fixed meta-prompt of a preset. Its eighth character is a space, where the
      generic one has the "n" of "Write an". */
  function PresetMeta(p: Preset): (meta: string)
    ensures |meta| > 9 && meta[7] == ' '
  {
    match p
    case Christmas => ChristmasMeta
    case WinterLandscape => WinterLandscapeMeta
    case FineArt => FineArtMeta
    case Nativity => NativityMeta
  }

  /** The meta-prompt that asks the completion service for an image brief. The generic
      form is used exactly when the art prompt is not a preset key. */
  function MetaPrompt(artPrompt: string): (meta: string)
    ensures !IsPresetKey(artPrompt) <==> GenericMetaPrefix <= meta
    ensures !IsPresetKey(artPrompt) ==> meta == GenericMetaPrefix + artPrompt
  {
    match ParsePreset(artPrompt)
    case Some(p) =>
      assert GenericMetaPrefix[7] != PresetMeta(p)[7];
      PresetMeta(p)
    case None => GenericMetaPrefix + artPrompt
  }

  /** The fixed meta-prompt each preset key selects. */
  lemma PresetMetaPrompts()
    ensures MetaPrompt("christmas") == ChristmasMeta
    ensures MetaPrompt("winterlandscape") == WinterLandscapeMeta
    ensures MetaPrompt("fineart") == FineArtMeta
    ensures MetaPrompt("nativity") == NativityMeta
  {
  }

  /** Different art prompts get different meta-prompts: the meta-prompt determines the
      art prompt it was made from. */
  lemma MetaPromptInjective(a: string, b: string)
    requires MetaPrompt(a) == MetaPrompt(b)
    ensures a == b
  {
    if !IsPresetKey(a) {
      var m := MetaPrompt(a);
      assert m[|GenericMetaPrefix|..] == a;
      assert m[|GenericMetaPrefix|..] == b;
    } else {
      var p := ParsePreset(a).value;
      var q := ParsePreset(b).value;
      assert |PresetMeta(p)| == |PresetMeta(q)|;
    }
  }

  /** The image brief: the completion's text, or, when the completion failed, the art
      prompt followed by a generic style. */
  function Brief(artPrompt: string, completion: Option<string>): (brief: string)
    ensures completion.Some? ==> brief == completion.value
    ensures completion.None? ==> artPrompt <= brief && brief[|artPrompt|..] == FallbackStyle
  {
    match completion
    case Some(text) => text
    case None => artPrompt + FallbackStyle
  }

  /** The style appended to the brief. Only "nativity" adds nothing; free text is
      appended as it was typed. The third case compares with "fine art", which is not the
      fine-art preset's key "fineart". */
  function ArtSuffix(artPrompt: string): (suffix: string)
    ensures suffix == "" <==> artPrompt == "nativity"
    ensures suffix != "" ==> |suffix| >= 2 && suffix[..2] == ", "
  {
    if artPrompt == "christmas" then ", christmas card art"
    else if artPrompt == "winterlandscape" then ", detailed painting"
    else if artPrompt == "fine art" then ", fine art painting"
    else if artPrompt == "nativity" then ""
    else ", " + artPrompt
  }

  /** The prompt for the image service: the brief, then the style. */
  function ImagePrompt(artPrompt: string, completion: Option<string>): (prompt: string)
    ensures Brief(artPrompt, completion) <= prompt
    ensures prompt[|Brief(artPrompt, completion)|..] == ArtSuffix(artPrompt)
  {
    Brief(artPrompt, completion) + ArtSuffix(artPrompt)
  }

  /** Free text other than "fine art" ends up at the end of the image prompt. */
  lemma FreeTextClosesImagePrompt(artPrompt: string, completion: Option<string>)
    requires !IsPresetKey(artPrompt) && artPrompt != "fine art"
    ensures var prompt := ImagePrompt(artPrompt, completion);
      |prompt| >= |artPrompt| + 2 && prompt[|prompt| - |artPrompt| - 2..] == ", " + artPrompt
  {
    assert ParsePreset("christmas").Some? && ParsePreset("winterlandscape").Some?;
    assert ArtSuffix(artPrompt) == ", " + artPrompt;
  }

  /** When both the completion fails and the art prompt is free text, the text appears
      twice: once in the fallback brief and once as the style. */
  lemma FallbackFreeText(artPrompt: string)
    requires !IsPresetKey(artPrompt) && artPrompt != "fine art"
    ensures ImagePrompt(artPrompt, None) == (artPrompt + FallbackStyle) + (", " + artPrompt)
  {
    assert ParsePreset("christmas").Some? && ParsePreset("winterlandscape").Some?;
    assert ArtSuffix(artPrompt) == ", " + artPrompt;
  }

  /** The styles of the four presets. The fine-art preset does not reach the "fine art"
      case, so it is styled like free text with its own key; only the literal text
      "fine art" gets the fine-art style. */
  lemma PresetStyles()
    ensures ArtSuffix(Key(Christmas)) == ", christmas card art"
    ensures ArtSuffix(Key(WinterLandscape)) == ", detailed painting"
    ensures ArtSuffix(Key(FineArt)) == ", fineart"
    ensures ArtSuffix(Key(Nativity)) == ""
    ensures ArtSuffix("fine art") == ", fine art painting"
  {
  }

  /** `finalizeArt`: ask for a brief, add the style, ask for an image. It never fails:
      the answer is the image service's URL, or the placeholder when that service fails. */
  function FinalizeArt(artPrompt: string, complete: Service, draw: Service): (url: string)
    ensures var prompt := ImagePrompt(artPrompt, complete(MetaPrompt(artPrompt)));
      && (draw(prompt).Some? ==> url == draw(prompt).value)
      && (draw(prompt).None? ==> url == PlaceholderImage)
  {
    match draw(ImagePrompt(artPrompt, complete(MetaPrompt(artPrompt))))
    case Some(url) => url
    case None => PlaceholderImage
  }

  /** The sentence naming the sender. The server tests `sender != ""`, which an absent
      sender passes, so an absent sender is named "undefined". The anonymous sentence is
      chosen exactly for the empty name. */
  function SenderClause(sender: Field): (clause: string)
    ensures clause == AnonymousClause <==> sender == Some("")
    ensures sender != Some("") ==> clause == NamedSenderPrefix + Str(sender) + "."
  {
    if sender != Some("") then
      var clause := NamedSenderPrefix + Str(sender) + ".";
      assert clause[0] != AnonymousClause[0];
      clause
    else AnonymousClause
  }

  /** The prompt for the greeting: the fixed instruction, the recipient, the requested
      details in quotes, and the sender sentence at the end. */
  function MessagePrompt(msgPrompt: Field, recipient: string, sender: Field): (prompt: string)
    ensures prompt == MessageIntro + recipient + DetailsOpening + Str(msgPrompt) + DetailsClosing
      + SenderClause(sender)
    ensures MessageIntro <= prompt
    ensures |prompt| >= |SenderClause(sender)|
      && prompt[|prompt| - |SenderClause(sender)|..] == SenderClause(sender)
  {
    var head := MessageIntro + recipient + ". " + "Details: should be \"" + Str(msgPrompt) + "\". ";
    var prompt := head + SenderClause(sender);
    MessagePromptPieces(MessageIntro, recipient, Str(msgPrompt), SenderClause(sender));
    assert prompt[..|MessageIntro|] == MessageIntro;
    prompt
  }

  /** The source's literal pieces of the greeting prompt regroup into the named constants. */
  lemma MessagePromptPieces(intro: string, recipient: string, details: string, clause: string)
    ensures intro + recipient + ". " + "Details: should be \"" + details + "\". " + clause
         == intro + recipient + DetailsOpening + details + DetailsClosing + clause
  {
  }

  /** Where the recipient and the requested details sit in the greeting prompt: right
      after the fixed instruction, and between the quotes that follow the recipient. */
  lemma MessagePromptCarries(msgPrompt: Field, recipient: string, sender: Field)
    ensures var prompt := MessagePrompt(msgPrompt, recipient, sender);
      var r := |MessageIntro|;
      var d := r + |recipient| + |DetailsOpening|;
      && |prompt| >= d + |Str(msgPrompt)| + |DetailsClosing|
      && prompt[r..r + |recipient|] == recipient
      && prompt[r + |recipient|..d] == DetailsOpening
      && prompt[d..d + |Str(msgPrompt)|] == Str(msgPrompt)
      && prompt[d + |Str(msgPrompt)|..d + |Str(msgPrompt)| + |DetailsClosing|] == DetailsClosing
  {
    var prompt := MessagePrompt(msgPrompt, recipient, sender);
    var details := Str(msgPrompt);
    var head := MessageIntro + recipient + DetailsOpening + details + DetailsClosing;
    assert prompt == head + SenderClause(sender);
    ConcatSlices(MessageIntro, recipient, DetailsOpening, details, DetailsClosing);
    JoinParts(head, SenderClause(sender));
    var r := |MessageIntro|;
    var d := r + |recipient| + |DetailsOpening|;
    SliceOfPrefix(prompt, |head|, r, r + |recipient|);
    SliceOfPrefix(prompt, |head|, r + |recipient|, d);
    SliceOfPrefix(prompt, |head|, d, d + |details|);
    SliceOfPrefix(prompt, |head|, d + |details|, d + |details| + |DetailsClosing|);
  }

  /** Each piece of a five-piece concatenation sits at the sum of the lengths before it. */
  lemma ConcatSlices(a: string, b: string, c: string, d: string, e: string)
    ensures var x := a + b + c + d + e;
      var i := |a|;
      var j := i + |b|;
      var k := j + |c|;
      var l := k + |d|;
      && |x| == l + |e|
      && x[i..j] == b && x[j..k] == c && x[k..l] == d && x[l..] == e
  {
    var p1 := a + b;
    var p2 := p1 + c;
    var p3 := p2 + d;
    var x := p3 + e;
    JoinParts(p3, e);
    JoinParts(p2, d);
    JoinParts(p1, c);
    JoinParts(a, b);
    SliceOfPrefix(x, |p3|, |p2|, |p3|);
    SliceOfPrefix(x, |p3|, |p1|, |p2|);
    SliceOfPrefix(p3, |p2|, |p1|, |p2|);
    SliceOfPrefix(x, |p3|, |a|, |p1|);
    SliceOfPrefix(p3, |p2|, |a|, |p1|);
    SliceOfPrefix(p2, |p1|, |a|, |p1|);
  }

  lemma JoinParts(u: string, v: string)
    ensures (u + v)[..|u|] == u && (u + v)[|u|..] == v
    ensures (u + v)[|u|..|u| + |v|] == v
  {
  }

  lemma SliceOfPrefix(x: string, n: nat, i: nat, j: nat)
    requires i <= j <= n <= |x|
    ensures x[..n][i..j] == x[i..j]
  {
  }

  /** A request without a sender field is signed "undefined", exactly like a sender who
      typed that word. */
  lemma MissingSenderSignedUndefined()
    ensures SenderClause(None) == SenderClause(Some("undefined"))
    ensures SenderClause(None) == "Name of sender: undefined."
  {
  }

  /** A request with an empty sender and one with any other sender never share a prompt:
      the completion service can always tell an anonymous card from a signed one. */
  lemma MessagePromptSeparatesAnonymous(msgPrompt: Field, recipient: string, s1: Field, s2: Field)
    requires s1 == Some("") && s2 != Some("")
    ensures MessagePrompt(msgPrompt, recipient, s1) != MessagePrompt(msgPrompt, recipient, s2)
  {
  }

  /** Number of newlines at the start of `s`. */
  function LeadingNewlines(s: string): (n: nat)
    ensures n <= |s|
    ensures forall k :: 0 <= k < n ==> s[k] == '\n'
    ensures n == |s| || s[n] != '\n'
  {
    if |s| > 0 && s[0] == '\n' then 1 + LeadingNewlines(s[1..]) else 0
  }

  /** The count of leading newlines is the one position that all earlier characters are
      newlines and that does not hold one itself. */
  lemma LeadingNewlinesUnique(s: string, j: nat)
    requires j <= |s| && (j == |s| || s[j] != '\n')
    requires forall k :: 0 <= k < j ==> s[k] == '\n'
    ensures LeadingNewlines(s) == j
  {
  }

  /** `s` without its leading newlines. */
  function Stripped(s: string): (r: string)
    ensures |r| == 0 || r[0] != '\n'
    ensures |r| <= |s| && r == s[|s| - |r|..]
    ensures forall k :: 0 <= k < |s| - |r| ==> s[k] == '\n'
  {
    s[LeadingNewlines(s)..]
  }

  /** Stripping twice strips nothing more. */
  lemma StrippedIdempotent(s: string)
    ensures Stripped(Stripped(s)) == Stripped(s)
  {
    LeadingNewlinesUnique(Stripped(s), 0);
  }

  /** Text without a leading newline is left alone. */
  lemma StrippedKeeps(s: string)
    requires |s| == 0 || s[0] != '\n'
    ensures Stripped(s) == s
  {
  }

  /** The loop at the end of `finalizeMessage`: drop the first character while it is a
      newline. An empty string stops the loop, since its first character is undefined. */
  method StripLeadingNewlines(text: string) returns (message: string)
    ensures |message| == 0 || message[0] != '\n'
    ensures |message| <= |text| && message == text[|text| - |message|..]
    ensures forall k :: 0 <= k < |text| - |message| ==> text[k] == '\n'
    ensures message == Stripped(text)
  {
    message := text;
    while |message| > 0 && message[0] == '\n'
      invariant |message| <= |text| && message == text[|text| - |message|..]
      invariant forall k :: 0 <= k < |text| - |message| ==> text[k] == '\n'
    {
      message := message[1..];
    }
    LeadingNewlinesUnique(text, |text| - |message|);
  }

  /** `finalizeMessage`: build the prompt, ask for the greeting, strip its leading
      newlines. A failing completion is not caught, so the whole request fails. */
  function FinalizeMessage(msgPrompt: Field, recipient: string, sender: Field, complete: Service)
    : (message: Option<string>)
    ensures var answer := complete(MessagePrompt(msgPrompt, recipient, sender));
      && (message.None? <==> answer.None?)
      && (message.Some? ==> Stripped(answer.value) == message.value)
    ensures message.Some? ==> |message.value| == 0 || message.value[0] != '\n'
  {
    match complete(MessagePrompt(msgPrompt, recipient, sender))
    case Some(text) => Some(Stripped(text))
    case None => None
  }
}
