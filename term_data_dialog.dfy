/** `TermDataDialog`: a dialog for one term (`term_text`, `data`) with its one-bit
    "validated" state. No component of this model renders it. */
module TermDialog {
  import opened Annotate

  /** The icon next to the term on the dialog's trigger button. */
  datatype Icon = CheckCircled | ExclamationTriangle

  class TermDataDialog {
    const termText: string
    /** The term's data; `Annotate.Term` stands in for the dialog's own `Term` type. */
    const data: seq<Term>
    var isChecked: bool
    /** Every value passed to the parent's `onCheck` callback, in call order. */
    var notified: seq<bool>

    /** The flag is set exactly when the parent has been told, and the parent is only
        ever told `true`. */
    ghost predicate Valid()
      reads this
    {
      (isChecked <==> notified != []) &&
      forall i :: 0 <= i < |notified| ==> notified[i]
    }

    function TriggerIcon(): Icon
      reads this
    {
      if isChecked then CheckCircled else ExclamationTriangle
    }

    constructor (termText: string, data: seq<Term>)
      ensures Valid()
      ensures this.termText == termText && this.data == data
      ensures !isChecked && notified == [] && TriggerIcon() == ExclamationTriangle
    {
      this.termText := termText;
      this.data := data;
      isChecked := false;
      notified := [];
    }

    /** `handleValidation`, the dialog's Validate action: set the flag and notify the
        parent with `true`. Repeating it leaves the flag as it is. */
    method HandleValidation()
      requires Valid()
      modifies this`isChecked, this`notified
      ensures Valid()
      ensures isChecked && TriggerIcon() == CheckCircled
      ensures notified == old(notified) + [true]
    {
      isChecked := true;
      notified := notified + [true];
    }
  }
}
