/** The page: the persisted blob, the rendered list, the summary line, the error
    line, the entry field and the add button, and the handlers that change them.
    Add (with a non-empty text), remove and toggle (of a present id) reload the
    collection, change it, save it and re-render; an edit saves and re-renders
    the collection it loaded when it began. */
module App {
  import opened Text
  import opened Tasks
  import opened Storage

  datatype Option<T> = None | Some(value: T)

  /** The message `showError` displays for an empty task. */
  const EmptyTaskError: string := "Task cannot be empty!"

  /** What an inline edit holds on to: the collection loaded when the edit began
      and the position of the record being edited. */
  datatype EditSession = EditSession(snapshot: seq<Task>, index: nat)

  /** Keys the handlers tell apart. */
  datatype Key = Enter | Escape | OtherKey

  /** Signals that end an inline edit. */
  datatype EditEvent = EditKey(key: Key) | Blur

  class TaskManager {
    /** The value stored under the "tasks" key. */
    var blob: Blob
    /** The records the list currently shows, in order. */
    var shown: seq<Task>
    /** The text of the summary line. */
    var metaText: string
    /** The text of the error line and whether it is displayed. */
    var errorText: string
    var errorVisible: bool
    /** The entry field's value and the add button's disabled flag. */
    var inputValue: string
    var addDisabled: bool

    /** The list and the summary line show exactly what is stored. */
    ghost predicate Synced()
      reads this
    {
      shown == Load(blob) && metaText == MetaText(shown)
    }

    /** The add button is disabled exactly when the field trims to nothing. */
    ghost predicate ButtonRule()
      reads this
    {
      addDisabled == (Trim(inputValue) == [])
    }

    /** The page once its content has loaded: the stored collection is rendered
        and the add button is disabled. */
    constructor (stored: Blob)
      ensures blob == stored && shown == Load(stored) && metaText == MetaText(shown)
      ensures errorText == "" && !errorVisible
      ensures inputValue == "" && addDisabled
      ensures Synced() && ButtonRule()
      ensures !stored.Records? ==> shown == [] && metaText == MetaText([])
    {
      blob := stored;
      errorText, errorVisible := "", false;
      inputValue, addDisabled := "", true;
      shown, metaText := [], "";
      new;
      RenderTasks(Load(stored));
    }

    /** `showError`: displays the message. */
    method ShowError(message: string)
      modifies this`errorText, this`errorVisible
      ensures errorText == message && errorVisible
    {
      errorText := message;
      errorVisible := true;
    }

    /** The deferred callback `showError` schedules: hides the error line. */
    method HideError()
      modifies this`errorVisible
      ensures !errorVisible
    {
      errorVisible := false;
    }

    /** `updateMeta`: the summary line describes the given collection. */
    method UpdateMeta(ts: seq<Task>)
      modifies this`metaText
      ensures metaText == MetaText(ts)
    {
      metaText := MetaText(ts);
    }

    /** `saveToStorage`: overwrites the stored value and refreshes the summary. */
    method SaveToStorage(ts: seq<Task>)
      modifies this`blob, this`metaText
      ensures blob == Serialize(ts) && Load(blob) == ts
      ensures metaText == MetaText(ts)
    {
      blob := Serialize(ts);
      UpdateMeta(ts);
    }

    /** `renderTasks`: the list shows the given collection and the summary
        describes it (zero and zero for the empty collection). */
    method RenderTasks(ts: seq<Task>)
      modifies this`shown, this`metaText
      ensures shown == ts && metaText == MetaText(ts)
    {
      shown := ts;
      if |ts| == 0 {
        UpdateMeta([]);
      } else {
        UpdateMeta(ts);
      }
    }

    /** `clearInput`: empties the field and disables the add button. */
    method ClearInput()
      modifies this`inputValue, this`addDisabled
      ensures inputValue == "" && addDisabled
      ensures ButtonRule()
    {
      inputValue := "";
      addDisabled := true;
    }

    /** `addTask`: rejects a text that trims to nothing, leaving the store alone;
        otherwise puts a new undone record with the trimmed text in front. */
    method AddTask(text: string, freshId: string) returns (ok: bool)
      modifies this`blob, this`shown, this`metaText, this`errorText, this`errorVisible
      ensures ok <==> Trim(text) != []
      ensures ok ==> blob == Serialize(AfterAdd(old(Load(blob)), freshId, text))
      ensures ok ==> Synced() && errorText == old(errorText) && errorVisible == old(errorVisible)
      ensures !ok ==> blob == old(blob) && shown == old(shown) && metaText == old(metaText)
      ensures !ok ==> errorText == EmptyTaskError && errorVisible
      ensures old(Synced()) ==> Synced()
      ensures ok && WellFormed(old(Load(blob))) && !HasId(old(Load(blob)), freshId) ==> WellFormed(Load(blob))
    {
      var trimmed := Trim(text);
      if trimmed == [] {
        ShowError(EmptyTaskError);
        return false;
      }
      var ts := Load(blob);
      ghost var before := ts;
      ts := [Task(freshId, trimmed, false)] + ts;
      SaveToStorage(ts);
      RenderTasks(ts);
      if WellFormed(before) && !HasId(before, freshId) {
        AddWellFormed(before, freshId, text);
      }
      return true;
    }

    /** `removeTask`: keeps the records whose id differs, in order, and always
        saves, so a value that loaded as empty is overwritten by an empty array. */
    method RemoveTask(id: string)
      modifies this`blob, this`shown, this`metaText
      ensures blob == Serialize(AfterRemove(old(Load(blob)), id))
      ensures !old(blob).Records? ==> blob == Records([])
      ensures Synced()
      ensures WellFormed(old(Load(blob))) ==> WellFormed(Load(blob))
    {
      var ts := AfterRemove(Load(blob), id);
      SaveToStorage(ts);
      RenderTasks(ts);
      if WellFormed(old(Load(blob))) {
        RemoveWellFormed(old(Load(blob)), id);
      }
    }

    /** `toggleTask`: flips `done` on the first record with the id and saves;
        with no such record nothing is saved or redrawn. */
    method ToggleTask(id: string)
      modifies this`blob, this`shown, this`metaText
      ensures HasId(old(Load(blob)), id) ==> blob == Serialize(AfterToggle(old(Load(blob)), id)) && Synced()
      ensures !HasId(old(Load(blob)), id) ==>
        blob == old(blob) && shown == old(shown) && metaText == old(metaText)
      ensures !old(blob).Records? ==> blob == old(blob)
      ensures old(Synced()) ==> Synced()
      ensures WellFormed(old(Load(blob))) ==> WellFormed(Load(blob))
    {
      var ts := Load(blob);
      var idx := FindIndex(ts, id);
      if idx != -1 {
        ts := ts[idx := ts[idx].(done := !ts[idx].done)];
        SaveToStorage(ts);
        RenderTasks(ts);
      }
      if WellFormed(old(Load(blob))) {
        ToggleWellFormed(old(Load(blob)), id);
      }
    }

    /** `startEditTask`: finds the first record with the id in a fresh load; with
        none there is no edit. The session keeps that loaded collection. */
    method StartEditTask(id: string) returns (session: Option<EditSession>)
      ensures session.None? <==> !HasId(Load(blob), id)
      ensures session.Some? ==>
        var s := session.value;
        s.snapshot == Load(blob) && s.index < |s.snapshot| && s.snapshot[s.index].id == id
        && forall j :: 0 <= j < s.index ==> s.snapshot[j].id != id
    {
      var ts := Load(blob);
      var idx := FindIndex(ts, id);
      if idx == -1 {
        return None;
      }
      return Some(EditSession(ts, idx));
    }

    /** `finish(save)`: on save, a value that trims to something replaces the
        record's text and an empty one shows the error; in every case the
        session's collection is saved and rendered. */
    method FinishEdit(s: EditSession, save: bool, fieldValue: string)
      requires s.index < |s.snapshot|
      modifies this`blob, this`shown, this`metaText, this`errorText, this`errorVisible
      ensures blob == Serialize(AfterEdit(s.snapshot, s.index, save, fieldValue))
      ensures Synced()
      ensures save && Trim(fieldValue) == [] ==> errorText == EmptyTaskError && errorVisible
      ensures !(save && Trim(fieldValue) == []) ==>
        errorText == old(errorText) && errorVisible == old(errorVisible)
      ensures WellFormed(s.snapshot) ==> WellFormed(Load(blob))
    {
      var ts := s.snapshot;
      if save {
        var newVal := Trim(fieldValue);
        if newVal != [] {
          ts := ts[s.index := ts[s.index].(text := newVal)];
        } else {
          ShowError(EmptyTaskError);
        }
      }
      SaveToStorage(ts);
      RenderTasks(ts);
      if WellFormed(s.snapshot) {
        EditWellFormed(s.snapshot, s.index, save, fieldValue);
      }
    }

    /** The edit field's handlers: Enter and losing focus commit, Escape calls
        `finish(false)`, which still saves; other keys do nothing. */
    method OnEditEvent(s: EditSession, ev: EditEvent, fieldValue: string)
      requires s.index < |s.snapshot|
      modifies this`blob, this`shown, this`metaText, this`errorText, this`errorVisible
      ensures ev == EditKey(OtherKey) ==>
        blob == old(blob) && shown == old(shown) && metaText == old(metaText)
        && errorText == old(errorText) && errorVisible == old(errorVisible)
      ensures ev != EditKey(OtherKey) ==>
        blob == Serialize(AfterEdit(s.snapshot, s.index, ev != EditKey(Escape), fieldValue)) && Synced()
      ensures (ev == Blur || ev == EditKey(Enter)) && Trim(fieldValue) == [] ==>
        errorText == EmptyTaskError && errorVisible
      ensures !((ev == Blur || ev == EditKey(Enter)) && Trim(fieldValue) == []) ==>
        errorText == old(errorText) && errorVisible == old(errorVisible)
    {
      match ev {
        case Blur => FinishEdit(s, true, fieldValue);
        case EditKey(Enter) => FinishEdit(s, true, fieldValue);
        case EditKey(Escape) => FinishEdit(s, false, fieldValue);
        case EditKey(OtherKey) =>
      }
    }

    /** The field's `input` handler: the button is disabled exactly when the new
        value trims to nothing. */
    method OnInput(value: string)
      modifies this`inputValue, this`addDisabled
      ensures inputValue == value && (addDisabled <==> Trim(value) == [])
      ensures ButtonRule()
    {
      inputValue := value;
      addDisabled := Trim(inputValue) == [];
    }

    /** The add button's click handler: adds the field's value and clears the
        field when that succeeded. */
    method OnAddClick(freshId: string)
      modifies this
      ensures Trim(old(inputValue)) != [] ==>
        blob == Serialize(AfterAdd(old(Load(blob)), freshId, old(inputValue))) && Synced()
        && inputValue == "" && addDisabled
        && errorText == old(errorText) && errorVisible == old(errorVisible)
      ensures Trim(old(inputValue)) == [] ==>
        blob == old(blob) && shown == old(shown) && metaText == old(metaText)
        && inputValue == old(inputValue) && addDisabled == old(addDisabled)
        && errorText == EmptyTaskError && errorVisible
      ensures old(Synced()) ==> Synced()
      ensures old(ButtonRule()) ==> ButtonRule()
    {
      ghost var before, value := Load(blob), inputValue;
      var ok := AddTask(inputValue, freshId);
      assert ok ==> blob == Serialize(AfterAdd(before, freshId, value));
      if ok {
        ClearInput();
      }
    }

    /** The field's `keydown` handler: Enter adds like the button, Escape clears
        the field without adding. */
    method OnInputKey(key: Key, freshId: string)
      modifies this
      ensures key == Enter && Trim(old(inputValue)) != [] ==>
        blob == Serialize(AfterAdd(old(Load(blob)), freshId, old(inputValue))) && Synced()
        && inputValue == "" && addDisabled
        && errorText == old(errorText) && errorVisible == old(errorVisible)
      ensures key == Enter && Trim(old(inputValue)) == [] ==>
        blob == old(blob) && shown == old(shown) && metaText == old(metaText)
        && inputValue == old(inputValue) && addDisabled == old(addDisabled)
        && errorText == EmptyTaskError && errorVisible
      ensures key == Escape ==>
        blob == old(blob) && shown == old(shown) && metaText == old(metaText)
        && errorText == old(errorText) && errorVisible == old(errorVisible)
        && inputValue == "" && addDisabled
      ensures key == OtherKey ==> unchanged(this)
      ensures old(Synced()) ==> Synced()
      ensures old(ButtonRule()) ==> ButtonRule()
    {
      if key == Enter {
        OnAddClick(freshId);
      } else if key == Escape {
        ClearInput();
      }
    }
  }
}
