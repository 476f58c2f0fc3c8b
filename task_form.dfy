/** The task creation form (src/components/Tasks/TaskForm.tsx): its field
    rules, its initial values, and reset-after-success. */
module TaskForm {
  import opened Wrappers
  import opened Types

  /** The form's values, as typed; the priority is the select's string value. */
  datatype FormValues = FormValues(title: string, description: string, priority: string)

  /** Required, then 3 to 50 characters; measured untrimmed. */
  predicate TitleValid(title: string) {
    title != "" && 3 <= |title| <= 50
  }

  /** Required, then 10 to 200 characters; measured untrimmed. */
  predicate DescriptionValid(description: string) {
    description != "" && 10 <= |description| <= 200
  }

  /** Required, and one of `Low`, `Medium`, `High`. */
  predicate PriorityValid(priority: string) {
    priority != "" && (priority == "Low" || priority == "Medium" || priority == "High")
  }

  /** The whole schema: every field rule at once. */
  predicate FormValid(v: FormValues) {
    TitleValid(v.title) && DescriptionValid(v.description) && PriorityValid(v.priority)
  }

  /** `required` adds nothing to the length bounds; lengths are of the untrimmed text. */
  lemma FormRules(v: FormValues)
    ensures FormValid(v) <==> 3 <= |v.title| <= 50 && 10 <= |v.description| <= 200 && ParsePriority(v.priority).Some?
  {
  }

  /** The values handed to `onSubmit`, which exist exactly for a valid form. */
  function Submission(v: FormValues): (r: Option<NewTask>)
    ensures r.Some? <==> FormValid(v)
    ensures r.Some? ==> r.value.title == v.title && r.value.description == v.description
    ensures r.Some? ==> PriorityName(r.value.priority) == v.priority
    ensures r.Some? ==> 3 <= |r.value.title| <= 50 && 10 <= |r.value.description| <= 200
  {
    if FormValid(v) then Some(NewTask(v.title, v.description, ParsePriority(v.priority).value)) else None
  }

  /** `initialValues` */
  function InitialValues(): (v: FormValues)
    ensures v.title == "" && v.description == ""
    ensures ParsePriority(v.priority) == Some(Medium)
  {
    FormValues("", "", "Medium")
  }

  /** The untouched form cannot be submitted, though its priority already passes. */
  lemma InitialValuesInvalid()
    ensures !FormValid(InitialValues())
    ensures PriorityValid(InitialValues().priority)
  {
  }

  /** The form's field state. */
  class TaskFormState {
    var values: FormValues

    constructor ()
      ensures values == InitialValues()
    {
      values := InitialValues();
    }

    method Edit(v: FormValues)
      modifies this
      ensures values == v
    {
      values := v;
    }

    /** A submission: an invalid form calls nothing; a valid one calls
        `onSubmit` and resets only if it resolved, swallowing its error. */
    method Submit(outcome: Result<(), string>) returns (sent: Option<NewTask>)
      modifies this
      ensures sent == Submission(old(values))
      ensures values == if sent.Some? && outcome.Ok? then InitialValues() else old(values)
    {
      sent := Submission(values);
      if sent.Some? && outcome.Ok? {
        values := InitialValues();
      }
    }
  }
}
