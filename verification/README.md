# Alphajot card builder: a verified model of its string logic

Alphajot turns a short form into a Christmas card. It asks a text-completion service for an
image brief and a greeting, asks an image service for a picture, lays the greeting out as
HTML paragraphs, and can e-mail the card. Most of the program is glue around those
services. This project models the deterministic parts between them and proves what they
do:

- **Paragraph formatter** (`Paragraphs`). `formatToHTML` turns each newline alternately into
  `<p>` and `</p>`, drops double quotes and copies every other character. The output is
  described as a sequence of pieces (an opening tag, a closing tag, or a copied character),
  because a message may itself contain the text `<p>`. `FormatToHTML` is the source's loop,
  and it is proved to produce the rendering of those pieces.
- **E-mail validator** (`EmailRegex`, `Email`). The regular expression is given its literal
  meaning: a match is a way of cutting the input into pieces its sub-expressions accept.
  A deterministic recognizer cuts at the first `@` and the last `.` and is proved to accept
  exactly the same strings. Both copies of `isValidEmail` are modelled on top of it: the
  server's and the browser's. They add the 254/64/63 length bounds and are proved equal on
  every string.
- **Prompts** (`Prompts`, `Presets`):
  - the meta-prompt switch, and the fallback brief used when the completion fails;
  - the style suffix switch, and the placeholder image used when the image service fails;
  - the greeting prompt with its sender sentence;
  - the loop that strips leading newlines from the greeting.
- **Card request** (`CardRequest`, `JsValues`). `/CreateCard` derives four values from the
  form body using JavaScript's `||`, `==` and string coercion. A field may be missing, which
  JavaScript reads as `undefined`; this is modelled as `Option<string>`. The handler is then
  modelled end to end, with the two services as function parameters.
- **Browser form** (`ClientForm`). The page script clears fields on load and reacts to
  three events: focusing the art bar, toggling the anonymous box and choosing a preset
  radio button. Each is a transition on an immutable form record. `isValidForm` is the
  source's loop over the radio buttons.

`Strings` holds the string helpers: `indexOf`, `lastIndexOf`, `split` with a one-character
separator, and its inverse `join`. `Wrappers` holds `Option`, which stands for a missing
value and for a failed service call alike.

Two behaviours of the code are kept as written:

- The suffix switch compares with `"fine art"`, but the fine-art preset's key is
  `"fineart"`. The fine-art preset therefore gets the free-text suffix `", fineart"`
  (`Prompts.PresetStyles`). The `"fine art"` case is not unreachable: typing
  `fine art` into the art bar reaches it.
- `finalizeMessage` tests `sender != ""`, and a missing sender passes that test. A request
  without a sender field is therefore signed "undefined" (`Prompts.MissingSenderSignedUndefined`).

## Model

| member | source | states |
|---|---|---|
| `Paragraphs.FormatToHTML` | server.js:268-290 | The loop's output is the rendering of the piece sequence the scan emits, and it contains no newline and no double quote. |
| `Paragraphs.RenderedHasNoNewlineOrQuote` | server.js:276-286 | For every input, the formatted text holds neither a newline nor a double quote. |
| `Paragraphs.ParagraphsKeepText` | server.js:275-287 | Removing the emitted tags leaves exactly the input without its newlines and double quotes, in the original order. |
| `Paragraphs.ParagraphsTagsAlternate` | server.js:274-283 | The emitted tags strictly alternate starting with `<p>`: with n newlines they are the first n terms of open, close, open, … |
| `Paragraphs.ParagraphTagCounts` | server.js:274-283 | With n newlines there are n tags, (n+1)/2 of them `<p>` and n/2 `</p>`; for odd n the last tag is an unclosed `<p>`. |
| `Paragraphs.AppendNoNewline` | server.js:284-286 | Appending text without newlines appends its filtered characters and no tag. |
| `Paragraphs.FilteredPlain` | server.js:284-286 | Text with neither newlines nor double quotes is copied unchanged. |
| `Paragraphs.OneParagraph` | server.js:276-286 | Newline, text, newline becomes `<p>`, the filtered text, `</p>`. |
| `Paragraphs.FormatHelloExample` | server.js:268-290 | `"\nHello\n"` becomes `"<p>Hello</p>"`. |
| `Paragraphs.FormatQuoteExample` | server.js:284-286 | `He said "hi"` becomes `He said hi`. |
| `EmailRegex.MatchesIsRegex` | server.js:95 | The first-`@`/last-`.` recognizer accepts a string exactly when the anchored expression has a match. |
| `EmailRegex.LocalRegexIff` | server.js:95 | `F(\.?C)*` accepts exactly the non-empty strings with no leading, trailing or doubled dot, whose first character is in the class without the backtick. |
| `EmailRegex.DomainRegexIff` | server.js:95 | `A(-*\.?A)*\.L(-?A)+` accepts a domain exactly when its last dot splits it into a valid head and a final label of a letter plus one or more characters. |
| `Email.IsValidEmail` | server.js:99-105 | The server copy accepts exactly the addresses of at most 254 characters that match the expression and have at most 64 characters before the `@` and no label over 63 characters. |
| `Email.ClientIsValidEmail` | public/js/validate.js:6-14 | The browser copy accepts exactly the same well-formed addresses. |
| `Email.ClientAgreesWithServer` | public/js/validate.js:2-14 | The browser and server copies give the same verdict on every string. |
| `Email.ServerRejects` | server.js:100-104 | The server copy rejects an address that is too long, that does not match, whose first `@`-piece is over 64 characters, or whose domain has a `.`-piece over 63. |
| `Email.ClientRejects` | public/js/validate.js:7-12 | The browser copy rejects on each of its four early returns. |
| `Email.ValidAddressShape` | server.js:95-103 | An accepted address has exactly one `@` and a dot after it. Its last dot starts a final label of at least two characters whose first is a letter. |
| `Email.LabelsWithinBound` | server.js:103-104 | No piece of the domain split at `.` exceeds 63 characters exactly when the domain has no dot-free run longer than 63. |
| `Email.AddressSplit` | server.js:101 | Splitting an accepted address at `@` yields exactly two pieces: the local part and the domain. |
| `Email.AcceptsShortAddress` | server.js:99-105 | `a@b.co` is accepted. |
| `Email.RejectsWithoutAt` | server.js:95 | A string without `@` is rejected. |
| `Strings.Split` | server.js:101-103 | `split` yields one more piece than there are separators, no piece holds the separator, and joining the pieces gives the input back. |
| `Strings.SplitJoin` | server.js:101-103 | Splitting the join of separator-free pieces gives the pieces back. |
| `Presets.ParsePreset` | server.js:155-167 | A string names a preset exactly when it is one of the four keys, and then it is that preset's key. |
| `Presets.ParseKey` | server.js:156-165 | Reading back a preset's key gives the preset. |
| `Presets.KeyInjective` | server.js:156-165 | No two presets share a switch key. |
| `Prompts.MetaPrompt` | server.js:155-170 | The generic "Write an brief idea…" template is used exactly when the art prompt is not a preset key, and then the meta-prompt is that template followed by the art prompt. |
| `Prompts.PresetMetaPrompts` | server.js:156-166 | Each of the four preset keys selects its own fixed meta-prompt: christmas, winter landscape, fine art and nativity. |
| `Prompts.MetaPromptInjective` | server.js:155-170 | Different art prompts yield different meta-prompts. |
| `Prompts.Brief` | server.js:183-188 | The brief is the completion's text when there is one. When the completion fails, it is the art prompt followed by ", a detailed painting". |
| `Prompts.ArtSuffix` | server.js:191-205 | Only "nativity" adds no style; every other style begins with ", ". |
| `Prompts.ImagePrompt` | server.js:190-205 | The image prompt is the brief followed by the style, and the style can be cut back off. |
| `Prompts.FreeTextClosesImagePrompt` | server.js:201-204 | Free text other than "fine art" ends the image prompt as ", " followed by the text. |
| `Prompts.FallbackFreeText` | server.js:186-204 | With a failed completion, free text yields the text, ", a detailed painting", ", " and the text again. |
| `Prompts.PresetStyles` | server.js:191-205 | The christmas preset gets ", christmas card art", winterlandscape ", detailed painting", fineart ", fineart" and nativity nothing. Only the literal "fine art" gets ", fine art painting". |
| `Prompts.FinalizeArt` | server.js:151-225 | The URL is the image service's answer for the composed prompt, or the placeholder image when that service fails. |
| `Prompts.SenderClause` | server.js:235-239 | The sentence is "From an anonymous sender." exactly when the sender is the empty string. Otherwise it is "Name of sender: ", the sender as JavaScript prints it, and ".". |
| `Prompts.MessagePrompt` | server.js:232-239 | The greeting prompt is the fixed instruction, the recipient, `. Details: should be "`, the details, `". ` and the sender sentence, in that order. |
| `Prompts.MessagePromptCarries` | server.js:232-233 | The recipient sits right after the fixed instruction, and the requested details sit between the quotes that follow it. |
| `Prompts.MissingSenderSignedUndefined` | server.js:235-236 | A request without a sender field is signed "Name of sender: undefined.", the same as a sender who typed "undefined". |
| `Prompts.MessagePromptSeparatesAnonymous` | server.js:235-239 | An anonymous request and a named one never share a greeting prompt. |
| `Prompts.LeadingNewlines` | server.js:257-259 | The count covers only newlines and stops at the first other character or at the end. |
| `Prompts.StripLeadingNewlines` | server.js:257-259 | The result does not start with a newline. The input is a run of newlines followed by the result. |
| `Prompts.StrippedIdempotent` | server.js:257-259 | Stripping again changes nothing. |
| `Prompts.StrippedKeeps` | server.js:257-259 | Text that does not start with a newline is left unchanged. |
| `Prompts.FinalizeMessage` | server.js:230-262 | The greeting fails exactly when the completion fails. Otherwise it is the completion without its leading newlines. |
| `CardRequest.ArtPromptOf` | server.js:330 | The art prompt is the first non-empty value among art bar, chosen preset and "traditional christmas scene", and is never empty. |
| `CardRequest.MsgPromptOf` | server.js:333 | The details always begin with the theme. They equal the theme exactly when the message prompt was submitted empty; otherwise ", " and the message prompt follow it. |
| `CardRequest.RecipientOf` | server.js:336 | The recipient is the submitted name when non-empty, otherwise "all the sender's friends". |
| `CardRequest.SenderOf` | server.js:337 | The sender is empty exactly when the anonymous box came as "on" or an empty name was sent. Without the box it is the submitted sender. |
| `CardRequest.ChosenPresetMeta` | server.js:330 | A chosen preset with an empty art bar selects that preset's fixed meta-prompt. |
| `CardRequest.DefaultArtMeta` | server.js:330 | With neither art text nor preset, the generic meta-prompt describes "traditional christmas scene". |
| `CardRequest.AnonymousRequest` | server.js:337 | A ticked anonymous box ends the greeting prompt with "From an anonymous sender.". |
| `CardRequest.NamedRequest` | server.js:337 | A submitted non-empty name without the box never gets the anonymous sentence. |
| `CardRequest.CreateCard` | server.js:327-354 | The card fails exactly when the greeting completion fails. Its image is the art finalizer's URL. Its message is the paragraph rendering of the completion without its leading newlines, so it has no newline or double quote. |
| `CardRequest.CardKeepsGreeting` | server.js:343-347 | When the greeting completion answers, the card exists, and its text pieces are exactly the stripped completion without newlines and double quotes. |
| `CardRequest.PresetArtRequest` | server.js:151-225 | A preset chosen with an empty art bar yields an image prompt of the preset completion plus the preset style. If the completion fails, it is the key, ", a detailed painting", then the style. The URL is the image answer or the placeholder. |
| `ClientForm.Load` | public/js/index.js:4-11 | Load empties the address, name, message and art bars and unticks the anonymous box (line 23). It keeps the radios, and the form is then incomplete. |
| `ClientForm.FocusArtBar` | public/js/index.js:14-19 | Focusing the art bar unchecks every preset and changes no other field. |
| `ClientForm.ToggleAnon` | public/js/index.js:24-31 | Ticking the box empties the name; unticking leaves it; nothing else changes. |
| `ClientForm.SelectPreset` | public/js/index.js:36-41 | Choosing a preset checks it alone and, when that is a change, empties the art bar. |
| `ClientForm.IsValidForm` | public/js/index.js:49-66 | True exactly when there is a name or the box is ticked, there is an address, and there is art text or a checked preset. |
| `ClientForm.RunKeepsSingleArtChoice` | public/js/index.js:14-41 | After any sequence of events, at most one preset is checked and never together with typed art. |
| `ClientForm.LoadStartsSingleArtChoice` | public/js/index.js:4-11 | Page load leaves a single art choice when at most one radio was restored as checked. |
| `ClientForm.LoadedRunKeepsSingleArtChoice` | public/js/index.js:4-41 | From page load on, after any sequence of events, at most one art choice is in effect. |
| `ClientForm.OneArtSource` | public/js/index.js:56-64 | A complete form names exactly one source of art: typed text or one preset. |
| `ClientForm.FocusedEmptyArtIncomplete` | public/js/index.js:62-64 | Focusing an empty art bar leaves the form incomplete. |
| `ClientForm.ChoicesSatisfyCheck` | public/js/index.js:50-64 | Choosing a preset satisfies the art part of the check, and ticking the anonymous box satisfies the name part. |

## Left out

- Express routing, body parsing, static files and `sendFile` pages: these are HTTP plumbing. The form body is parsed with the non-extended URL-encoded parser: a key sent twice becomes an array of strings, and this is not modelled; a field is a string or absent.
- The completion, image, image-hosting and mail services: these are network calls. Each service is a function parameter from prompt to an optional answer. Its sampling settings (temperature, token limit) are not modelled. The model also treats one service as giving one answer per prompt.
- `Prompts.FinalizeArt`: error kinds are not distinguished; every failed call is `None`. A completion response whose first choice has no `text` does not throw but makes the brief `undefined`; the model treats it as a failure.
- `CardRequest.CreateCard`: does not model the `Promise.all` concurrency, the logging, or the HTML page wrapped around the card. A failed greeting is `None` rather than an unhandled rejection.
- `/ConfirmCard`: the mail dispatch, SHA-512 file naming, the image upload and the address lower-casing are left out. The subject fallback `"Merry Christmas!"` never takes effect, because a promise is always truthy.
- Browser styling and alerts: the name bar's display toggle, the send and go buttons, the subtitle text and `window.alert` are left out. Only the validity verdict is modelled.
- The send button's click handler looks up `#email`, but the result page's e-mail input has a name and no id, so the lookup fails before `isValidEmail` runs and the form posts unchecked. Only the validator itself is modelled.
- `ClientForm.Load`: the radio buttons keep whatever state the browser restores, because the script does not clear them.
- JavaScript strings are UTF-16 code-unit sequences; the model uses `seq<char>`. No operation modelled here depends on the difference.
