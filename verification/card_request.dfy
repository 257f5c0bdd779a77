/** The `/CreateCard` handler: the four values it derives from the submitted form body,
    and the card it assembles from the art and the formatted greeting. */
module CardRequest {
  import opened Wrappers
  import opened JsValues
  import opened Presets
  import opened Prompts
  import opened Paragraphs

  /** The fields of the submitted form the handler reads. Any of them may be absent. */
  datatype FormBody = FormBody(
    artprompt: Field,
    description: Field,
    msgprompt: Field,
    theme: Field,
    recipient: Field,
    sender: Field,
    anoncheck: Field)

  /** What the handler passes on to `finalizeArt` and `finalizeMessage`. */
  datatype CardFields = CardFields(artPrompt: string, msgPrompt: Field, recipient: string, sender: Field)

  /** The finished card: an image URL and the greeting as HTML paragraphs. */
  datatype Card = Card(imageUrl: string, message: string)

  const DefaultArtPrompt: string := "traditional christmas scene"
  const DefaultRecipient: string := "all the sender's friends"

  /** `artprompt || description || "traditional christmas scene"`: typed text wins over
      a chosen preset, which wins over the default. The result is never empty. */
  function ArtPromptOf(body: FormBody): (artPrompt: string)
    ensures artPrompt != ""
    ensures Truthy(body.artprompt) ==> artPrompt == body.artprompt.value
    ensures !Truthy(body.artprompt) && Truthy(body.description) ==> artPrompt == body.description.value
    ensures !Truthy(body.artprompt) && !Truthy(body.description) ==> artPrompt == DefaultArtPrompt
  {
    Or(body.artprompt, Or(body.description, DefaultArtPrompt))
  }

  /** The details of the greeting: the theme, followed by the typed message prompt unless
      that was submitted empty. An absent message prompt is not empty, so it is appended
      as "undefined". */
  function MsgPromptOf(body: FormBody): (msgPrompt: Field)
    ensures Str(body.theme) <= Str(msgPrompt)
    ensures Str(msgPrompt) == Str(body.theme) <==> body.msgprompt == Some("")
    ensures body.msgprompt != Some("") ==>
      Str(msgPrompt)[|Str(body.theme)|..] == ", " + Str(body.msgprompt)
  {
    if body.msgprompt != Some("") then Some(Str(body.theme) + ", " + Str(body.msgprompt))
    else body.theme
  }

  /** `recipient || "all the sender's friends"`: never empty. */
  function RecipientOf(body: FormBody): (recipient: string)
    ensures recipient != ""
    ensures Truthy(body.recipient) ==> recipient == body.recipient.value
    ensures !Truthy(body.recipient) ==> recipient == DefaultRecipient
  {
    Or(body.recipient, DefaultRecipient)
  }

  /** The sender is blanked when the anonymous box was submitted ticked ("on"); otherwise
      it is whatever was submitted, possibly absent. */
  function SenderOf(body: FormBody): (sender: Field)
    ensures sender == Some("") <==> Is(body.anoncheck, "on") || body.sender == Some("")
    ensures !Is(body.anoncheck, "on") ==> sender == body.sender
  {
    if Is(body.anoncheck, "on") then Some("") else body.sender
  }

  function Derive(body: FormBody): CardFields {
    CardFields(ArtPromptOf(body), MsgPromptOf(body), RecipientOf(body), SenderOf(body))
  }

  /** A preset chosen with the art bar left empty selects that preset's fixed meta-prompt. */
  lemma ChosenPresetMeta(body: FormBody, p: Preset)
    requires body.description == Some(Key(p)) && !Truthy(body.artprompt)
    ensures MetaPrompt(Derive(body).artPrompt) == PresetMeta(p)
  {
    ParseKey(p);
  }

  /** With neither typed text nor a preset, the generic meta-prompt describes the default
      scene. */
  lemma DefaultArtMeta(body: FormBody)
    requires !Truthy(body.artprompt) && !Truthy(body.description)
    ensures MetaPrompt(Derive(body).artPrompt) == GenericMetaPrefix + DefaultArtPrompt
  {
  }

  /** A ticked anonymous box puts the anonymous sentence at the end of the message
      prompt, whatever name was submitted. */
  lemma AnonymousRequest(body: FormBody)
    requires Is(body.anoncheck, "on")
    ensures var f := Derive(body);
      var prompt := MessagePrompt(f.msgPrompt, f.recipient, f.sender);
      |prompt| >= |AnonymousClause| && prompt[|prompt| - |AnonymousClause|..] == AnonymousClause
  {
  }

  /** A request with a submitted name and no ticked box never gets the anonymous
      sentence. */
  lemma NamedRequest(body: FormBody)
    requires !Is(body.anoncheck, "on") && body.sender != Some("")
    ensures SenderClause(Derive(body).sender) != AnonymousClause
  {
  }

  /** The whole handler. The art never fails; a failing greeting completion fails the
      request, since neither `finalizeMessage` nor the handler catches it. The greeting
      reaches the page without newlines or double quotes. */
  function CreateCard(body: FormBody, complete: Service, draw: Service): (card: Option<Card>)
    ensures var f := Derive(body);
      card.None? <==> complete(MessagePrompt(f.msgPrompt, f.recipient, f.sender)).None?
    ensures card.Some? ==> card.value.imageUrl == FinalizeArt(Derive(body).artPrompt, complete, draw)
    ensures card.Some? ==> '\n' !in card.value.message && '"' !in card.value.message
    ensures var f := Derive(body);
      var answer := complete(MessagePrompt(f.msgPrompt, f.recipient, f.sender));
      card.Some? ==> card.value.message == Render(Pieces(Stripped(answer.value)))
  {
    var f := Derive(body);
    var imageUrl := FinalizeArt(f.artPrompt, complete, draw);
    match FinalizeMessage(f.msgPrompt, f.recipient, f.sender, complete)
    case None => None
    case Some(message) =>
      RenderedHasNoNewlineOrQuote(message);
      Some(Card(imageUrl, Render(Pieces(message))))
  }

  /** The card's greeting keeps the words of the completion: once its tags are set aside,
      it is the completion without its leading newlines, newlines and double quotes. */
  lemma CardKeepsGreeting(body: FormBody, complete: Service, draw: Service)
    requires var f := Derive(body);
      complete(MessagePrompt(f.msgPrompt, f.recipient, f.sender)).Some?
    ensures var f := Derive(body);
      var greeting := Stripped(complete(MessagePrompt(f.msgPrompt, f.recipient, f.sender)).value);
      var card := CreateCard(body, complete, draw);
      && card.Some?
      && card.value.message == Render(Pieces(greeting))
      && TextOf(Pieces(greeting)) == Filtered(greeting)
  {
    var f := Derive(body);
    var greeting := Stripped(complete(MessagePrompt(f.msgPrompt, f.recipient, f.sender)).value);
    ParagraphsKeepText(greeting);
  }

  /** A preset chosen with the art bar left empty, from the form to the image service:
      the image prompt is the completion for the preset's meta-prompt followed by the
      preset's style, or, when that completion fails, the preset's key, the fallback
      style and the preset's style. */
  lemma PresetArtRequest(body: FormBody, p: Preset, complete: Service, draw: Service)
    requires body.description == Some(Key(p)) && !Truthy(body.artprompt)
    ensures var prompt := ImagePrompt(Derive(body).artPrompt, complete(MetaPrompt(Derive(body).artPrompt)));
      && (complete(PresetMeta(p)).Some? ==> prompt == complete(PresetMeta(p)).value + ArtSuffix(Key(p)))
      && (complete(PresetMeta(p)).None? ==> prompt == Key(p) + FallbackStyle + ArtSuffix(Key(p)))
      && FinalizeArt(Derive(body).artPrompt, complete, draw)
         == (if draw(prompt).Some? then draw(prompt).value else PlaceholderImage)
  {
    ChosenPresetMeta(body, p);
  }
}
