/**
 * The inline editor used for names and table cells (`AutoSaveInput`): it saves the edited text
 * through `onSave` after a pause in typing, on blur and on Enter, never re-sends the text it
 * last saved, and reverts on Escape.
 */
module AutoSaveInput {
  import opened Wrappers
  import opened Text

  /**
   * One `saveValue` call: nothing is sent when the text is the one last saved; otherwise it is
   * sent, and it becomes the last saved text only when `onSave` succeeds (`ok`).
   */
  datatype SaveStep = SaveStep(sent: Option<string>, lastSaved: string)

  function SaveValue(lastSaved: string, text: string, ok: bool): (r: SaveStep)
    ensures r.sent.None? <==> text == lastSaved
    ensures r.sent.Some? ==> r.sent.value == text
    ensures r.lastSaved == text || r.lastSaved == lastSaved
  {
    if text == lastSaved then SaveStep(None, lastSaved)
    else SaveStep(Some(text), if ok then text else lastSaved)
  }

  /** Once a text has been saved, saving it again sends nothing. */
  lemma SaveValueSettles(lastSaved: string, text: string, ok: bool)
    ensures SaveValue(SaveValue(lastSaved, text, true).lastSaved, text, ok).sent == None
  {
  }

  /** A failed save changes nothing but what was sent, so the same text is sent again next time. */
  lemma FailedSaveIsRetried(lastSaved: string, text: string, ok: bool)
    requires text != lastSaved
    ensures SaveValue(SaveValue(lastSaved, text, false).lastSaved, text, ok).sent == Some(text)
  {
  }

  class Input {
    /** The text shown. */
    var value: string
    /** `lastSavedRef`: the text the server last accepted. */
    var lastSaved: string
    /** The debounce timer, holding the text it will save when it fires. */
    var pending: Option<string>
    /** The texts passed to `onSave`, in order. */
    var sent: seq<string>
    /** How many times the `onBlur` prop has been called. */
    var blurNotified: nat
    const saveOnlyOnBlur: bool

    /** The field shows what the server holds and no save is scheduled. */
    predicate Synced()
      reads this
    {
      value == lastSaved && pending == None
    }

    constructor (initialValue: string, saveOnlyOnBlur: bool)
      ensures value == initialValue && lastSaved == initialValue && pending == None && sent == []
      ensures blurNotified == 0 && this.saveOnlyOnBlur == saveOnlyOnBlur
      ensures Synced()
    {
      value := initialValue;
      lastSaved := initialValue;
      pending := None;
      sent := [];
      blurNotified := 0;
      this.saveOnlyOnBlur := saveOnlyOnBlur;
    }

    /** The effect on a new `initialValue` from the parent; a scheduled save stays scheduled. */
    method InitialValueChanged(initialValue: string)
      modifies this`value, this`lastSaved
      ensures value == initialValue && lastSaved == initialValue
    {
      value := initialValue;
      lastSaved := initialValue;
    }

    /** `saveValue`; `ok` is false when `onSave` threw (logged). */
    method Save(text: string, ok: bool)
      modifies this`lastSaved, this`sent
      ensures lastSaved == SaveValue(old(lastSaved), text, ok).lastSaved
      ensures sent == old(sent) + (match SaveValue(old(lastSaved), text, ok).sent
                                   case Some(t) => [t] case None => [])
    {
      if text == lastSaved {
        return;
      }
      sent := sent + [text];
      if ok {
        lastSaved := text;
      }
    }

    /** `handleChange`: the text is shown and, unless saving only on blur, a save is (re)scheduled. */
    method Change(text: string)
      modifies this`value, this`pending
      ensures value == text
      ensures pending == if saveOnlyOnBlur then old(pending) else Some(text)
    {
      value := text;
      if saveOnlyOnBlur {
        return;
      }
      pending := Some(text);
    }

    /** The debounce timer fires and saves the text it captured, blank or not. */
    method TimerFires(ok: bool)
      requires pending.Some?
      modifies this`pending, this`lastSaved, this`sent
      ensures pending == None
      ensures lastSaved == SaveValue(old(lastSaved), old(pending).value, ok).lastSaved
      ensures sent == old(sent) + (match SaveValue(old(lastSaved), old(pending).value, ok).sent
                                   case Some(t) => [t] case None => [])
    {
      var text := pending.value;
      pending := None;
      Save(text, ok);
    }

    /**
     * `handleBlur`: the scheduled save is cancelled and the shown text is saved unless it is
     * blank; then, whether or not anything was saved, the `onBlur` prop is called. After a
     * successful save of non-blank text the field is in sync.
     */
    method Blur(ok: bool)
      modifies this`pending, this`lastSaved, this`sent, this`blurNotified
      ensures pending == None
      ensures Trim(value) == "" ==> lastSaved == old(lastSaved) && sent == old(sent)
      ensures Trim(value) != "" ==>
        && lastSaved == SaveValue(old(lastSaved), value, ok).lastSaved
        && sent == old(sent) + (match SaveValue(old(lastSaved), value, ok).sent
                                case Some(t) => [t] case None => [])
      ensures Trim(value) != "" && ok ==> Synced()
      ensures blurNotified == old(blurNotified) + 1
    {
      pending := None;
      if Trim(value) != "" {
        Save(value, ok);
      }
      blurNotified := blurNotified + 1;
    }

    /** Enter does nothing but blur the field, so it has exactly the effect of `Blur`. */
    method Enter(ok: bool)
      modifies this`pending, this`lastSaved, this`sent, this`blurNotified
      ensures pending == None
      ensures Trim(value) == "" ==> lastSaved == old(lastSaved) && sent == old(sent)
      ensures Trim(value) != "" ==>
        && lastSaved == SaveValue(old(lastSaved), value, ok).lastSaved
        && sent == old(sent) + (match SaveValue(old(lastSaved), value, ok).sent
                                case Some(t) => [t] case None => [])
      ensures Trim(value) != "" && ok ==> Synced()
      ensures blurNotified == old(blurNotified) + 1
    {
      Blur(ok);
    }

    /**
     * Escape as written: `setValue(lastSaved)` only takes effect at the next render, and the
     * blur that follows at once still sees the edited text, so that text is saved while the
     * field shows the old one.
     */
    method EscapeAsWritten(ok: bool)
      modifies this`value, this`pending, this`lastSaved, this`sent, this`blurNotified
      ensures value == old(lastSaved) && pending == None
      ensures blurNotified == old(blurNotified) + 1
      ensures Trim(old(value)) != "" ==>
        && lastSaved == SaveValue(old(lastSaved), old(value), ok).lastSaved
        && sent == old(sent) + (match SaveValue(old(lastSaved), old(value), ok).sent
                                case Some(t) => [t] case None => [])
      ensures Trim(old(value)) == "" ==> lastSaved == old(lastSaved) && sent == old(sent)
    {
      var edited := value;
      value := lastSaved;
      pending := None;
      if Trim(edited) != "" {
        Save(edited, ok);
      }
      blurNotified := blurNotified + 1;
    }

    /** Escape as intended: the edit is discarded, nothing is sent, and the field is in sync. */
    method Escape(ok: bool)
      modifies this`value, this`pending, this`lastSaved, this`sent, this`blurNotified
      ensures value == old(lastSaved) && lastSaved == old(lastSaved) && sent == old(sent)
      ensures blurNotified == old(blurNotified) + 1
      ensures Synced()
    {
      value := lastSaved;
      Blur(ok);
    }
  }

  /** Typing "b" over a saved "a" and pressing Escape: "b" is saved, "a" is shown. */
  method EscapeSavesEditAsWritten() returns (input: Input)
    ensures input.value == "a" && input.lastSaved == "b" && input.sent == ["b"]
    ensures !input.Synced()
  {
    input := new Input("a", false);
    input.Change("b");
    assert input.value == "b" && input.lastSaved == "a" && input.sent == [];
    UnpaddedIsTrimmed("b");
    input.EscapeAsWritten(true);
    assert input.sent == [] + ["b"];
  }

  /** The same keys with Escape as intended: nothing is sent and "a" is shown and saved. */
  method EscapeRevertsEdit() returns (input: Input)
    ensures input.value == "a" && input.lastSaved == "a" && input.sent == []
    ensures input.Synced()
  {
    input := new Input("a", false);
    input.Change("b");
    input.Escape(true);
  }

  /** Clearing the field and pausing sends the empty text, which a blur would never send. */
  method DebounceSavesBlank() returns (input: Input)
    ensures input.sent == [""] && input.lastSaved == ""
  {
    input := new Input("a", false);
    input.Change("");
    input.TimerFires(true);
  }
}
