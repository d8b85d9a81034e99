/**
 * One task card: its own editing state on top of the task it was given. The two
 * handlers that await the server are split at the `await`: a `Begin` method runs
 * up to the call and returns what is sent, a `Settled` method runs the rest once
 * the call has succeeded or failed.
 */
module TaskItem {
  import opened Wrappers
  import opened Tasks
  import Text
  import Database
  import Routes

  /** The "edited" label is shown when the row's update time differs from its creation time. */
  predicate ShowsEdited(task: Task)
  {
    task.updatedAt != task.createdAt
  }

  /**
   * A row as created carries no label; an update that changes the title or the
   * completion flag at a later moment adds it, and one that changes nothing leaves
   * the label as it was.
   */
  lemma EditedLabelTracksChanges(t: Task, p: Patch, now: nat)
    requires t.createdAt <= t.updatedAt < now
    ensures t.createdAt == t.updatedAt ==> !ShowsEdited(t)
    ensures var u := Database.Patched(t, p, now);
      && (u.title != t.title || u.completed != t.completed ==> ShowsEdited(u))
      && (u.title == t.title && u.completed == t.completed ==> ShowsEdited(u) == ShowsEdited(t))
  {
  }

  class TaskItem {
    /** The task this card shows, as last passed in. */
    var task: Task
    var isEditing: bool
    var editedTitle: string
    var isCompleted: bool
    var loading: bool

    /** A card starts in view mode with its fields taken from the task. */
    constructor (task: Task)
      ensures this.task == task && !isEditing && editedTitle == task.title
      ensures isCompleted == task.completed && !loading
    {
      this.task := task;
      isEditing := false;
      editedTitle := task.title;
      isCompleted := task.completed;
      loading := false;
    }

    /** `handleEdit`: enter edit mode with the title field reset to the task's title. */
    method Edit()
      modifies this`isEditing, this`editedTitle
      ensures isEditing && editedTitle == task.title
    {
      isEditing := true;
      editedTitle := task.title;
    }

    /** Typing in the title field. */
    method ChangeTitle(value: string)
      modifies this`editedTitle
      ensures editedTitle == value
    {
      editedTitle := value;
    }

    /**
     * `handleSave` up to the call: a title that is blank once trimmed is refused
     * (nothing is sent and nothing changes); otherwise loading starts and the
     * trimmed title goes out together with the current completion flag.
     */
    method BeginSave() returns (sent: Option<Patch>)
      modifies this`loading
      ensures Text.Trim(editedTitle) == "" ==> sent.None? && loading == old(loading)
      ensures Text.Trim(editedTitle) != "" ==>
        sent == Some(Patch(Some(Text.Trim(editedTitle)), Some(isCompleted))) && loading
    {
      var trimmed := Text.Trim(editedTitle);
      if trimmed == "" {
        return None;
      }
      loading := true;
      sent := Some(Patch(Some(trimmed), Some(isCompleted)));
    }

    /** `handleSave` after the call: leave edit mode only on success; loading ends either way. */
    method SaveSettled(ok: bool)
      modifies this`isEditing, this`loading
      ensures !loading
      ensures isEditing == (old(isEditing) && !ok)
    {
      if ok {
        isEditing := false;
      }
      loading := false;
    }

    /** `handleCancel`: put the title and the flag back as the task has them and leave edit mode. */
    method Cancel()
      modifies this`editedTitle, this`isCompleted, this`isEditing
      ensures editedTitle == task.title && isCompleted == task.completed && !isEditing
    {
      editedTitle := task.title;
      isCompleted := task.completed;
      isEditing := false;
    }

    /** `handleToggleComplete` up to the call: flip the flag at once and send only the new value. */
    method BeginToggle() returns (sent: Patch)
      modifies this`isCompleted
      ensures isCompleted == !old(isCompleted)
      ensures sent == Patch(None, Some(isCompleted))
    {
      var next := !isCompleted;
      isCompleted := next;
      sent := Patch(None, Some(next));
    }

    /** `handleToggleComplete` after the call: on failure set the flag to the opposite of what was sent. */
    method ToggleSettled(sentValue: bool, ok: bool)
      modifies this`isCompleted
      ensures ok ==> isCompleted == old(isCompleted)
      ensures !ok ==> isCompleted == !sentValue
    {
      if !ok {
        isCompleted := !sentValue;
      }
    }

    /**
     * The whole toggle when nothing else happens during the call: the flag ends
     * flipped when the update succeeds and back at its old value when it fails.
     */
    method ToggleComplete(ok: bool) returns (sent: Patch)
      modifies this`isCompleted
      ensures sent == Patch(None, Some(!old(isCompleted)))
      ensures ok ==> isCompleted == !old(isCompleted)
      ensures !ok ==> isCompleted == old(isCompleted)
    {
      sent := BeginToggle();
      ToggleSettled(sent.completed.value, ok);
    }

    /** `handleDelete`: ask to delete this task's id only when the user confirms. */
    method Delete(confirmed: bool) returns (requested: Option<int>)
      ensures requested == if confirmed then Some(task.id) else None
    {
      requested := if confirmed then Some(task.id) else None;
    }
  }

  /**
   * A save sends a non-empty title that is already trimmed. The update route stores
   * titles verbatim, so an edited title is kept in the same trimmed form the create
   * route gives new titles.
   */
  lemma SavedTitleTrimmed(editedTitle: string)
    requires Text.Trim(editedTitle) != ""
    ensures var sent := Text.Trim(editedTitle);
      sent != "" && Text.Trim(sent) == sent && Routes.AcceptableTitle(Some(sent))
  {
    Text.TrimIdempotent(editedTitle);
  }
}
