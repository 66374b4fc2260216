/** The create/edit form: six pieces of local state, the load from the task being
    edited, submit, cancel, and the priority colour. The date input's formatting and
    parsing are parameters: `formatDate` stands for taking the date part of
    toISOString, `parseDate` for `new Date(s).getTime()`. */
module TaskForm {
  import opened TaskModel
  import opened Text

  /** The options of the category select. */
  const Categories: seq<string> := ["Work", "Personal", "Health", "Learning", "Shopping", "Other"]

  const DefaultCategory: string := "Personal"

  /** The colour class of a priority: one per point of the scale, grey for anything else. */
  function PriorityColor(p: int): (c: string)
    ensures c == "text-gray-600" <==> !OnPriorityScale(p)
  {
    match p
    case 1 => "text-blue-600"
    case 2 => "text-green-600"
    case 3 => "text-yellow-600"
    case 4 => "text-orange-600"
    case 5 => "text-red-600"
    case _ => "text-gray-600"
  }

  /** Different points of the scale get different colours. */
  lemma PriorityColorsDistinct(p: int, q: int)
    requires OnPriorityScale(p) && OnPriorityScale(q) && p != q
    ensures PriorityColor(p) != PriorityColor(q)
  {
    assert PriorityColor(1)[5] == 'b' && PriorityColor(2)[5] == 'g' && PriorityColor(3)[5] == 'y';
    assert PriorityColor(4)[5] == 'o' && PriorityColor(5)[5] == 'r';
  }

  /** The draft a submit hands to the parent: the trimmed title and description, the
      priority and category as they are, the completion flag of the task being edited
      (false for a new one), and a due date exactly when the date input is not empty.
      A title that is not blank gives a draft whose title is trimmed and not empty, and
      the draft is valid exactly when the priority is on the scale. */
  function FormDraft(title: string, description: string, priority: int, dueDate: string,
                     category: string, editing: Option<Task>, parseDate: string -> int): (d: Draft)
    requires Trim(title) != []
    ensures d.title == Trim(title) && d.description == Trim(description)
    ensures d.priority == priority && d.category == category
    ensures d.completed <==> editing.Some? && editing.value.completed
    ensures d.dueDate.None? <==> dueDate == []
    ensures d.dueDate.Some? ==> d.dueDate.value == parseDate(dueDate)
    ensures d.title != [] && Trim(d.title) == d.title
    ensures ValidDraft(d) <==> OnPriorityScale(priority)
  {
    TrimIdempotent(title);
    Draft(Trim(title), Trim(description), priority, editing.Some? && editing.value.completed,
          if dueDate == [] then None else Some(parseDate(dueDate)), category)
  }

  class Form {
    var title: string
    var description: string
    var priority: int
    /** The date input's value: empty, or a calendar date as the input writes it. */
    var dueDate: string
    var category: string
    var isOpen: bool
    /** Whether the parent passed an `onCancel` callback. */
    const hasOnCancel: bool

    /** The field values the form starts with and returns to after submit and cancel. */
    predicate Cleared()
      reads this
    {
      title == [] && description == [] && priority == 1 && dueDate == [] && category == DefaultCategory
    }

    /** The two select boxes hold one of their own options. */
    predicate OptionsOnly()
      reads this
    {
      OnPriorityScale(priority) && category in Categories
    }

    constructor (hasOnCancel: bool)
      ensures Cleared() && !isOpen && this.hasOnCancel == hasOnCancel
      ensures OptionsOnly()
    {
      title, description, priority, dueDate, category := [], [], 1, [], DefaultCategory;
      isOpen := false;
      this.hasOnCancel := hasOnCancel;
    }

    /** The "Add New Task" button. */
    method Open()
      modifies this
      ensures isOpen
      ensures title == old(title) && description == old(description) && priority == old(priority)
      ensures dueDate == old(dueDate) && category == old(category)
    {
      isOpen := true;
    }

    method SetTitle(s: string)
      modifies this
      ensures title == s
      ensures description == old(description) && priority == old(priority) && dueDate == old(dueDate)
      ensures category == old(category) && isOpen == old(isOpen)
    {
      title := s;
    }

    method SetDescription(s: string)
      modifies this
      ensures description == s
      ensures title == old(title) && priority == old(priority) && dueDate == old(dueDate)
      ensures category == old(category) && isOpen == old(isOpen)
    {
      description := s;
    }

    /** The priority select offers 1 to 5 only. */
    method SelectPriority(p: int)
      requires OnPriorityScale(p)
      modifies this
      ensures priority == p
      ensures title == old(title) && description == old(description) && dueDate == old(dueDate)
      ensures category == old(category) && isOpen == old(isOpen)
      ensures old(OptionsOnly()) ==> OptionsOnly()
    {
      priority := p;
    }

    /** The category select offers the listed categories only. */
    method SelectCategory(c: string)
      requires c in Categories
      modifies this
      ensures category == c
      ensures title == old(title) && description == old(description) && priority == old(priority)
      ensures dueDate == old(dueDate) && isOpen == old(isOpen)
      ensures old(OptionsOnly()) ==> OptionsOnly()
    {
      category := c;
    }

    method SetDueDate(s: string)
      modifies this
      ensures dueDate == s
      ensures title == old(title) && description == old(description) && priority == old(priority)
      ensures category == old(category) && isOpen == old(isOpen)
    {
      dueDate := s;
    }

    /** The effect that runs when the task being edited changes: with a task, copy its
        fields into the form, the due date as a date string or empty, and open the
        form; without one, do nothing. */
    method Load(editing: Option<Task>, formatDate: int -> string)
      modifies this
      ensures editing.None? ==> unchanged(this)
      ensures editing.Some? ==>
                var t := editing.value;
                title == t.title && description == t.description && priority == t.priority
                && category == t.category && isOpen
                && dueDate == (if t.dueDate.Some? then formatDate(t.dueDate.value) else [])
      ensures editing.Some? ==>
                (OptionsOnly() <==> OnPriorityScale(editing.value.priority) && editing.value.category in Categories)
    {
      if editing.Some? {
        var t := editing.value;
        title := t.title;
        description := t.description;
        priority := t.priority;
        category := t.category;
        dueDate := if t.dueDate.Some? then formatDate(t.dueDate.value) else [];
        isOpen := true;
      }
    }

    /** The reset both submit and cancel end with: every field back to its initial
        value and the form closed. */
    method Clear()
      modifies this
      ensures Cleared() && !isOpen && OptionsOnly()
    {
      title, description, priority, dueDate, category := [], [], 1, [], DefaultCategory;
      isOpen := false;
    }

    /** What a submit of the form as it stands hands to the parent: nothing when the
        title trims to nothing, the `FormDraft` of the fields otherwise. */
    function Submission(editing: Option<Task>, parseDate: string -> int): (r: Option<Draft>)
      reads this
      ensures r.None? <==> Trim(title) == []
      ensures r.Some? ==> r.value.title == Trim(title) && r.value.category == category
      ensures r.Some? && OptionsOnly() ==> ValidDraft(r.value) && r.value.category in Categories
    {
      if Trim(title) == [] then None
      else Some(FormDraft(title, description, priority, dueDate, category, editing, parseDate))
    }

    /** handleSubmit: a title that trims to nothing submits nothing and changes nothing.
        Otherwise the form submits the `FormDraft` of its fields and is cleared and closed. */
    method Submit(editing: Option<Task>, parseDate: string -> int) returns (draft: Option<Draft>)
      modifies this
      ensures draft == old(Submission(editing, parseDate))
      ensures draft.None? ==> unchanged(this)
      ensures draft.Some? ==> Cleared() && !isOpen
      ensures old(OptionsOnly()) ==> OptionsOnly()
    {
      if Trim(title) == [] {
        return None;
      }
      draft := Some(FormDraft(title, description, priority, dueDate, category, editing, parseDate));
      Clear();
    }

    /** handleCancel: clear and close the form, and report whether the parent's
        `onCancel` is called. */
    method Cancel() returns (notified: bool)
      modifies this
      ensures Cleared() && !isOpen && OptionsOnly()
      ensures notified == hasOnCancel
    {
      Clear();
      notified := hasOnCancel;
    }

    /** The form shows its fields when it is open or a task is being edited, and the
        "Add New Task" button otherwise. */
    predicate Expanded(editing: Option<Task>)
      reads this
    {
      isOpen || editing.Some?
    }
  }
}
