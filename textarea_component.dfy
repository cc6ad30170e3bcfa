/** The state of the `Textarea` component: the text being typed, the term-matching request,
    and the switch from the editor to the annotated rendering and back. */
module TextareaComponent {
  import opened WhitespaceSplit
  import opened Annotate

  datatype Option<T> = None | Some(value: T)

  /** What the area under the text shows. */
  datatype Controls =
    | PleaseWait          // disabled spinner button
    | CancelAndSendToAi   // Cancel, and a disabled "Send to AI"
    | ProcessText         // the button that sends the text to the matcher

  class Textarea {
    var userInputText: string
    /** The last term-matching response; absent until one arrives. */
    var matchTerms: Option<MatchedTerms>
    /** The annotated paragraph; absent until one has been built. */
    var richInputText: Option<seq<Elem>>
    var isInputSent: bool
    var isLoading: bool
    /** The `text_to_match` of the request that is still awaited, if any. */
    var pendingRequest: Option<string>
    /** The lookup of a button's first term threw inside the effect; React then discards
        the component, so no handler runs afterwards. */
    var effectFailed: bool

    ghost predicate Valid()
      reads this
    {
      !(isLoading && isInputSent) &&
      (pendingRequest.Some? ==> isLoading) &&
      (richInputText.Some? ==> matchTerms.Some?) &&
      (isInputSent && !effectFailed ==>
         matchTerms.Some? && richInputText.Some? &&
         Annotation(userInputText, matchTerms.value, richInputText.value))
    }

    /** Which controls sit under the text. */
    function ShownControls(): Controls
      reads this
    {
      if isLoading then PleaseWait else if isInputSent then CancelAndSendToAi else ProcessText
    }

    /** The editable textarea is on the page exactly when the input has not been sent;
        otherwise the annotated paragraph replaces it. */
    function ShowsEditor(): bool
      reads this
    {
      !isInputSent
    }

    constructor ()
      ensures Valid()
      ensures userInputText == "" && matchTerms == None && richInputText == None
      ensures !isInputSent && !isLoading && pendingRequest == None && !effectFailed
      ensures ShownControls() == ProcessText && ShowsEditor()
    {
      userInputText := "";
      matchTerms := None;
      richInputText := None;
      isInputSent := false;
      isLoading := false;
      pendingRequest := None;
      effectFailed := false;
    }

    /** `handleChange`: typing into the textarea, which exists only while it is shown. */
    method HandleChange(value: string)
      requires Valid() && ShowsEditor() && !effectFailed
      modifies this`userInputText
      ensures Valid() && userInputText == value
    {
      userInputText := value;
    }

    /** Clicking "Process text": loading starts and the current text is sent. */
    method ProcessTextClicked()
      requires Valid() && ShownControls() == ProcessText && !effectFailed
      modifies this`isLoading, this`pendingRequest
      ensures Valid() && isLoading && pendingRequest == Some(userInputText)
      ensures ShownControls() == PleaseWait && ShowsEditor()
    {
      isLoading := true;
      pendingRequest := Some(userInputText);
    }

    /** The request failed (a network error, a non-ok status, or a body that `response.json()`
        rejects): the error is only logged.
        Nothing resets isLoading, so the spinner stays. */
    method FetchFailed()
      requires Valid() && pendingRequest.Some? && !effectFailed
      modifies this`pendingRequest
      ensures Valid() && pendingRequest == None
      ensures isLoading && ShownControls() == PleaseWait
    {
      pendingRequest := None;
    }

    /** The response arrived: `setMatchTerms`, then the effect on `matchTerms`. The
        paragraph is built from the text in the editor NOW, which the user may have edited
        since the request was sent. A failure of the build is returned. */
    method FetchSucceeded(json: MatchedTerms) returns (failure: Option<BuildError>)
      requires Valid() && pendingRequest.Some? && !effectFailed
      modifies this`matchTerms, this`richInputText, this`isLoading, this`isInputSent,
               this`pendingRequest, this`effectFailed
      ensures Valid()
      ensures matchTerms == Some(json) && pendingRequest == None
      ensures !isLoading && isInputSent && ShownControls() == CancelAndSendToAi && !ShowsEditor()
      ensures failure == None <==>
                !ShadowsHasOwnProperty(json) && AllHaveTerms(Split(userInputText), json)
      ensures failure == None ==>
                !effectFailed && richInputText.Some? &&
                Annotation(userInputText, json, richInputText.value)
      ensures failure.Some? ==> effectFailed && richInputText == old(richInputText)
      ensures failure.Some? && ShadowsHasOwnProperty(json) ==>
                failure.value == ShadowedHasOwnProperty(0)
      ensures failure.Some? && !ShadowsHasOwnProperty(json) ==>
                failure.value.EmptyTermList? &&
                FirstLacking(Split(userInputText), json, failure.value.key)
    {
      pendingRequest := None;
      matchTerms := Some(json);
      isLoading := false;
      isInputSent := true;
      var built := ReplaceWithButton(userInputText, json);
      match built
      case Ok(elems) =>
        richInputText := Some(elems);
        failure := None;
      case Err(e) =>
        effectFailed := true;
        failure := Some(e);
    }

    /** Cancel: back to the editor; the text, the response and the paragraph are kept. */
    method Cancel()
      requires Valid() && ShownControls() == CancelAndSendToAi && !effectFailed
      modifies this`isInputSent
      ensures Valid() && !isInputSent
      ensures ShownControls() == ProcessText && ShowsEditor()
    {
      isInputSent := false;
    }
  }
}
