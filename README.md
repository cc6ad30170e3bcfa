# Term annotation in the cohort-query text box

This project models, in Dafny, the client-side core of the IDEA4RC natural-language
cohort query UI. The user types a cohort description into a `Textarea`. The text goes to a
term-matching service, which answers with a map from matched phrase to a list of clinical
terms. The component then rewrites the text as a paragraph. Every word that is a key of the
map becomes a popover button showing the variable name of the word's first term. Every
other token stays literal text. `TermDataDialog` is a dialog for one term (`term_text`,
`data`) with a one-bit "validated" flag; no file of this model renders it.

Modules:

- `WhitespaceSplit` (whitespace_split.dfy) models `text.split(/(\s+)/)` and `trim`. `IsWs` is
  the ECMAScript white-space and line-terminator set that both of them use. The tokeniser is
  characterised completely by three lemmas:
  - joining the tokens gives back the text;
  - the tokens alternate between words and non-empty white-space runs;
  - any tokenisation of that shape which joins back to the text is the split itself.
- `Annotate` (annotate.dfy) models `replaceWithButton`. It is a loop over the tokens that
  appends one element per token. It fails where the source throws:
  - a response with its own key `hasOwnProperty` hides the method that the test at line 94
    calls, so the first callback throws;
  - a term token whose list is empty has no first term, so reading `variable_name` from it
    throws.
- `TextareaComponent` (textarea_component.dfy) is the component's state as a class. Its fields
  are `userInputText`, `matchTerms`, `richInputText`, `isInputSent` and `isLoading`. It also
  keeps the request still awaited and whether the effect threw. Its methods are the handlers
  and the effect. `Valid()` holds throughout and says four things:
  - the spinner and the annotated view are never on screen together;
  - a request is awaited only while loading;
  - a paragraph exists only once a response has arrived;
  - while the annotated view is shown, it is exactly the annotation of the current text.
- `TermDialog` (term_data_dialog.dfy) is the dialog's `isChecked` flag. It records the values
  passed to the parent's `onCheck`.

Two behaviours of the code are kept as written:

- The effect builds the paragraph from the text in the editor when the response arrives.
  The user can still edit the textarea while the request is in flight, so this may not be
  the text that was sent.
- A failed request leaves `isLoading` set. From then on the spinner stays, and only typing
  remains possible.

The code looks up single tokens only; it does no multi-word phrase matching.

## Model

| member | source | states |
|---|---|---|
| `WhitespaceSplit.ConcatSplit` | components/ui/textarea.tsx:90 | joining the tokens of `split(/(\s+)/)` in order reproduces the text exactly |
| `WhitespaceSplit.SplitAlternates` | components/ui/textarea.tsx:90 | there is an odd number of tokens; even-position tokens contain no white space; odd-position tokens are non-empty white-space runs; only the first and last token may be empty |
| `WhitespaceSplit.SplitUnique` | components/ui/textarea.tsx:90 | every alternating token sequence that joins back to the text equals the split, so the split is determined by those two properties |
| `WhitespaceSplit.SplitNoWs` | components/ui/textarea.tsx:90 | a text with no white space, the empty text included, splits into itself as the only token (`""` gives `[""]`) |
| `WhitespaceSplit.TrimNoWs` | components/ui/textarea.tsx:94 | `trim` leaves a white-space-free token unchanged |
| `WhitespaceSplit.TrimAllWs` | components/ui/textarea.tsx:94 | `trim` turns a white-space run into `""` |
| `WhitespaceSplit.TrimToken` | components/ui/textarea.tsx:90-94 | for the token at position k, `word.trim()` is the token itself when k is even and `""` when k is odd |
| `WhitespaceSplit.TokensTrimmed` | components/ui/textarea.tsx:90-94 | every token of the split is either unchanged by `trim` or trimmed to `""`, so a token that passes the test at line 94 is its own trimmed key |
| `WhitespaceSplit.TrimParts` | components/ui/textarea.tsx:94 | for any string, `trim` returns an infix that neither starts nor ends with white space, and only white space is cut off on either side |
| `Annotate.ElementFor` | components/ui/textarea.tsx:94-111 | one `forEach` callback: a token whose trimmed text is a non-empty key becomes a button captioned with the token and showing its first term's variable name; any other token becomes a span with its text. The callback fails, with the token's index, iff the response shadows `hasOwnProperty`, or the token passes the trimmed test but the untrimmed lookup finds no key or an empty list; for a token that trims to itself or to `""` the latter is exactly a term with an empty list |
| `Annotate.AnnotateTokens` | components/ui/textarea.tsx:89-113 | the loop pushes one element per token with its index as key. It succeeds iff no term token has an empty list and, when there is a token at all, the response does not shadow `hasOwnProperty`. A shadowing response fails at token 0; otherwise the loop stops at the first term token with an empty list and reports it as an empty list, never as a missing key |
| `Annotate.ReplaceWithButton` | components/ui/textarea.tsx:85-116 | the loop emits one element per token, in order, with key i. A token becomes a button iff its trimmed text is a non-empty key. A button's text is the token and its content is the first term's variable name. Any other token is a literal with its text unchanged. The call fails iff the response shadows `hasOwnProperty` (reported at token 0, for every text, `""` included) or some term token has an empty list (the first such token is reported); the untrimmed lookup never misses |
| `Annotate.AnnotationShowsText` | components/ui/textarea.tsx:90-115 | the rendered paragraph, read element by element, is exactly the typed text |
| `Annotate.AnnotationUnique` | components/ui/textarea.tsx:92-113 | a text and a map determine the element sequence uniquely |
| `Annotate.ButtonsAreWords` | components/ui/textarea.tsx:90-104 | a button sits at an even position; its text is a non-empty, white-space-free map key, so the untrimmed lookup at line 104 finds the key tested at line 94; white-space tokens are always literals |
| `Annotate.PhraseKeyNeverButton` | components/ui/textarea.tsx:90-94 | a map key that contains white space (a multi-word phrase) never becomes a button |
| `Annotate.EmptyTextAnnotation` | components/ui/textarea.tsx:90-111 | the empty text renders as the single empty span with key 0 |
| `Annotate.SingleWordAnnotation` | components/ui/textarea.tsx:94-108 | a single matched word with a non-empty list renders as exactly one button, and that button shows the first term's variable name |
| `TextareaComponent.Textarea.constructor` | components/ui/textarea.tsx:21-26 | initially the text is empty, nothing is matched or rendered, nothing is sent or loading, and the "Process text" button is shown |
| `TextareaComponent.Textarea.HandleChange` | components/ui/textarea.tsx:69-71 | typing sets `userInputText` to the new value and changes nothing else |
| `TextareaComponent.Textarea.ProcessTextClicked` | components/ui/textarea.tsx:118-128 | clicking sets `isLoading` and sends the current text; the spinner shows and the editor stays on screen |
| `TextareaComponent.Textarea.FetchFailed` | components/ui/textarea.tsx:130-140 | a failed request (a network error, a non-ok status, or a body `response.json()` rejects) changes nothing but the pending request; `isLoading` stays true and the spinner stays |
| `TextareaComponent.Textarea.FetchSucceeded` | components/ui/textarea.tsx:60-67 | the response becomes `matchTerms`; `isLoading` becomes false and `isInputSent` true. `richInputText` becomes the annotation of the current `userInputText` under the response. Otherwise the failure is reported with its reason and token (token 0 for a shadowed `hasOwnProperty`, else the first term token with an empty list) and the old paragraph is kept. Nothing else changes |
| `TextareaComponent.Textarea.Cancel` | components/ui/textarea.tsx:167-172 | Cancel clears only `isInputSent`; the text, `matchTerms` and the paragraph are kept, and "Process text" shows again |
| `TermDialog.TermDataDialog.constructor` | components/ui/TermDataDialog.tsx:24-25 | `isChecked` starts false, the parent has not been notified, and the trigger shows the warning icon |
| `TermDialog.TermDataDialog.HandleValidation` | components/ui/TermDataDialog.tsx:27-30 | sets `isChecked` and notifies the parent once more with `true`; the trigger then shows the check icon. The flag is never cleared and the parent is only ever told `true` |

## Left out

- The request to `/api/match_terms`, the JSON decoding and the console logging are I/O. Their
  effect on the state is modelled by `ProcessTextClicked`, `FetchSucceeded` and `FetchFailed`.
- A response body that is not a JSON object of term lists is not modelled. For example,
  `null` would not trigger the effect.
- After the effect throws, React discards the component. The model only records that this
  happened (`effectFailed`) and allows no handler afterwards.
- `ws` and `isMessageReady` are never used by live code. The WebSocket code is commented out
  and the server's WebSocket loop is I/O.
- The dialog's Cancel button has no handler and changes no state. The dialog opening and
  closing is UI, so no member stands for it.
- Which whitespace `\s` and `trim` accept depends on the engine's Unicode version. `IsWs`
  lists the current set, and no proof depends on its members.
- React rendering, keys, popovers, dialogs, icons as graphics, styling and refs are UI.
  Only the choice of icon (`TriggerIcon`) and of controls (`ShownControls`) is modelled.
- `hasOwnProperty` on the parsed response is modelled as membership in a map of the
  response's own keys; keys inherited from `Object.prototype` are not keys of the map. An
  own key `hasOwnProperty` is modelled as the error it causes (`ShadowedHasOwnProperty`).
- The `Term` type of the dialog's `data` comes from components/ui/TermData, which is not part
  of this model; the response's `Annotate.Term` (`variable_name`, `code`) stands in for it,
  and no member reads `data`.
- The parent that collects `onCheck` calls and the `TermData` component are not part of this
  model.
- api/index.py is a wrapper around a matcher that is not part of this model. FinishedDemo,
  the page layout and the build configuration hold no logic of the core.
