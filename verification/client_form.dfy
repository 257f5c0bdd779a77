/** The card form in the browser (public/js/index.js): the text fields the page script
    clears, the preset radio buttons, the anonymous box, and the check run before the
    form is sent. Keystrokes and clicks are events applied to a form state. */
module ClientForm {
  import opened Presets

  /** The address, name, message and art bars, whether the anonymous box is ticked, and
      which preset radio buttons are checked. */
  datatype Form = Form(address: string, name: string, message: string, art: string, anon: bool, checked: set<Preset>)

  /** The radio buttons of the "description" group in document order. */
  const Radios: seq<Preset> := [Christmas, WinterLandscape, FineArt, Nativity]

  /** Where a preset's radio button stands in `Radios`. */
  function RadioIndex(p: Preset): (k: nat)
    ensures k < |Radios| && Radios[k] == p
  {
    match p
    case Christmas => 0
    case WinterLandscape => 1
    case FineArt => 2
    case Nativity => 3
  }

  /** What the check before sending asks for: a name unless anonymous, an address, and
      either typed art or a chosen preset. */
  predicate Complete(f: Form) {
    && (f.anon || f.name != "")
    && f.address != ""
    && (f.art != "" || f.checked != {})
  }

  /** At most one way of choosing the art is in effect: at most one preset, and never a
      preset together with typed art. */
  predicate SingleArtChoice(f: Form) {
    |f.checked| <= 1 && (f.art == "" || f.checked == {})
  }

  /** Page load: the four bars are emptied and the anonymous box unticked. The radio
      buttons keep whatever state the browser restored. */
  function Load(f: Form): (g: Form)
    ensures !Complete(g)
    ensures g.address == "" && g.name == "" && g.message == "" && g.art == ""
    ensures g.checked == f.checked && !g.anon
  {
    f.(address := "", name := "", message := "", art := "", anon := false)
  }

  /** Focusing the art bar unchecks every preset and leaves the rest alone. */
  function FocusArtBar(f: Form): (g: Form)
    ensures g.checked == {}
    ensures g.(checked := f.checked) == f
  {
    f.(checked := {})
  }

  /** Ticking the anonymous box empties the name bar (and hides it); unticking it leaves
      the name as it is. */
  function ToggleAnon(f: Form, ticked: bool): (g: Form)
    ensures g.anon == ticked
    ensures ticked ==> g.name == ""
    ensures g.(anon := f.anon, name := f.name) == f
    ensures !ticked ==> g.name == f.name
  {
    if ticked then f.(anon := true, name := "") else f.(anon := false)
  }

  /** Clicking a preset checks it alone. A change event fires only if it was not already
      the checked one, and that event empties the art bar. */
  function SelectPreset(f: Form, p: Preset): (g: Form)
    ensures g.checked == {p}
    ensures f.checked != {p} ==> g.art == ""
    ensures g.(checked := f.checked, art := f.art) == f
  {
    if f.checked == {p} then f else f.(checked := {p}, art := "")
  }

  /** What the user and the page can do to the form. Typing art goes through the art bar's
      focus handler first. */
  datatype Event =
    | Reload
    | TypeAddress(text: string)
    | TypeName(text: string)
    | TypeMessage(text: string)
    | TypeArt(text: string)
    | Anon(ticked: bool)
    | Choose(preset: Preset)

  function Apply(f: Form, e: Event): Form {
    match e
    case Reload => Load(f)
    case TypeAddress(t) => f.(address := t)
    case TypeName(t) => f.(name := t)
    case TypeMessage(t) => f.(message := t)
    case TypeArt(t) => FocusArtBar(f).(art := t)
    case Anon(ticked) => ToggleAnon(f, ticked)
    case Choose(p) => SelectPreset(f, p)
  }

  function Run(f: Form, events: seq<Event>): Form
    decreases |events|
  {
    if events == [] then f else Run(Apply(f, events[0]), events[1..])
  }

  /** Every event keeps a single art choice. */
  lemma ApplyKeepsSingleArtChoice(f: Form, e: Event)
    requires SingleArtChoice(f)
    ensures SingleArtChoice(Apply(f, e))
  {
  }

  /** Whatever happens after the page loads, at most one art choice is in effect. The
      browser keeps at most one radio of a group checked. */
  lemma {:induction false} RunKeepsSingleArtChoice(f: Form, events: seq<Event>)
    requires SingleArtChoice(f)
    ensures SingleArtChoice(Run(f, events))
    decreases |events|
  {
    if events != [] {
      ApplyKeepsSingleArtChoice(f, events[0]);
      RunKeepsSingleArtChoice(Apply(f, events[0]), events[1..]);
    }
  }

  /** Page load starts a single art choice whenever the browser restored at most one
      checked radio, which it does for a radio group. */
  lemma LoadStartsSingleArtChoice(f: Form)
    requires |f.checked| <= 1
    ensures SingleArtChoice(Load(f))
  {
  }

  /** From page load on, whatever the user does, at most one art choice is in effect. */
  lemma LoadedRunKeepsSingleArtChoice(f: Form, events: seq<Event>)
    requires |f.checked| <= 1
    ensures SingleArtChoice(Run(Load(f), events))
  {
    LoadStartsSingleArtChoice(f);
    RunKeepsSingleArtChoice(Load(f), events);
  }

  /** A complete form with a single art choice names exactly one source of art: the typed
      text or one preset. */
  lemma OneArtSource(f: Form)
    requires SingleArtChoice(f) && Complete(f)
    ensures (f.art != "") != (f.checked != {})
    ensures f.checked != {} ==> exists p :: f.checked == {p}
  {
    if f.checked != {} {
      var p :| p in f.checked;
      var rest := f.checked - {p};
      assert |rest| == |f.checked| - 1;
      assert rest == {};
      assert f.checked == rest + {p};
    }
  }

  /** Focusing the art bar and leaving it empty makes the form incomplete. */
  lemma FocusedEmptyArtIncomplete(f: Form)
    requires f.art == ""
    ensures !Complete(FocusArtBar(f))
  {
  }

  /** Choosing a preset satisfies the art part of the check, and ticking the anonymous
      box the name part. */
  lemma ChoicesSatisfyCheck(f: Form, p: Preset)
    ensures var g := SelectPreset(f, p); g.art != "" || g.checked != {}
    ensures var g := ToggleAnon(f, true); g.anon || g.name != ""
  {
  }

  /** `isValidForm`: the three early returns, with the art check scanning every radio
      button for a checked one. */
  method IsValidForm(f: Form) returns (valid: bool)
    ensures valid <==> Complete(f)
  {
    if !f.anon && f.name == "" {
      return false;
    }
    if f.address == "" {
      return false;
    }
    var artPreselected := false;
    var i := 0;
    while i < |Radios|
      invariant 0 <= i <= |Radios|
      invariant artPreselected <==> exists k :: 0 <= k < i && Radios[k] in f.checked
    {
      if Radios[i] in f.checked {
        artPreselected := true;
      }
      i := i + 1;
    }
    if f.checked != {} {
      var p :| p in f.checked;
      assert Radios[RadioIndex(p)] in f.checked;
    }
    if f.art == "" && !artPreselected {
      return false;
    }
    return true;
  }
}
