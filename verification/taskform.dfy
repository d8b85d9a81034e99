/**
 * The new-task form: the text typed so far, a loading flag while the task is being
 * added, and an error line. Submitting is split at the `await`: `Submit` runs up
 * to the call and returns the title handed to the parent, `SubmitSettled` runs the
 * rest once that call has succeeded or failed.
 */
module TaskForm {
  import opened Wrappers
  import Text
  import Routes

  const EmptyTitle := "Por favor, escribe una tarea"
  const AddFailed := "Error al agregar tarea. Intenta de nuevo."

  class TaskForm {
    var title: string
    var loading: bool
    var error: string

    /** An empty form, not loading, without an error. */
    constructor ()
      ensures title == "" && !loading && error == ""
    {
      title := "";
      loading := false;
      error := "";
    }

    /**
     * `handleSubmit` up to the call: a title that is blank once trimmed only sets
     * the error; otherwise loading starts, the error clears and the title is handed
     * on exactly as typed.
     */
    method Submit() returns (added: Option<string>)
      modifies this`loading, this`error
      ensures Text.Trim(title) == "" ==> added.None? && error == EmptyTitle && loading == old(loading)
      ensures Text.Trim(title) != "" ==> added == Some(title) && loading && error == ""
    {
      if Text.Trim(title) == "" {
        error := EmptyTitle;
        return None;
      }
      loading := true;
      error := "";
      added := Some(title);
    }

    /**
     * `handleSubmit` after the call: on success the field and the error clear; on
     * failure the typed title stays and a fixed error shows. Loading ends either way.
     */
    method SubmitSettled(ok: bool)
      modifies this`title, this`loading, this`error
      ensures !loading
      ensures ok ==> title == "" && error == ""
      ensures !ok ==> title == old(title) && error == AddFailed
    {
      if ok {
        title := "";
        error := "";
      } else {
        error := AddFailed;
      }
      loading := false;
    }

    /** `handleKeyPress`: Enter submits, unless a submission is already in progress. */
    method KeyPress(isEnter: bool) returns (added: Option<string>)
      modifies this`loading, this`error
      ensures !isEnter || old(loading) ==> added.None? && loading == old(loading) && error == old(error)
      ensures isEnter && !old(loading) && Text.Trim(title) != "" ==> added == Some(title) && loading && error == ""
      ensures isEnter && !old(loading) && Text.Trim(title) == "" ==> added.None? && error == EmptyTitle && !loading
    {
      if isEnter && !loading {
        added := Submit();
      } else {
        added := None;
      }
    }

    /** Typing in the field replaces the title and clears any error. */
    method Change(value: string)
      modifies this`title, this`error
      ensures title == value && error == ""
    {
      title := value;
      error := "";
    }
  }

  /**
   * The form hands on exactly the titles the create route accepts: whatever it
   * submits is not rejected with 400, and whatever it refuses would have been.
   */
  lemma FormMatchesServerCheck(title: string)
    ensures Text.Trim(title) != "" <==> Routes.AcceptableTitle(Some(title))
  {
  }
}
