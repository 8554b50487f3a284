/** The add-skill form: two text fields, a submit handler that validates and
    trims them before handing them to the page, and the submit button's state. */
module SkillForm {
  import opened Wrappers
  import opened JsStrings

  /** The arguments `onSubmit` receives: a name and an optional category. */
  datatype Submission = Submission(skillName: string, category: Option<string>)

  /** What `handleSubmit` passes on for the given field contents: nothing when the
      trimmed name is empty; otherwise the typed name, and the typed category or
      no category when it is blank, each with only surrounding whitespace dropped. */
  function SubmissionFor(skillName: string, category: string): (r: Option<Submission>)
    ensures r.None? <==> AllWhitespace(skillName)
    ensures r.Some? ==> r.value.skillName != [] && Trim(r.value.skillName) == r.value.skillName
    ensures r.Some? ==> exists k :: TrimmedAt(skillName, r.value.skillName, k)
    ensures r.Some? ==> (r.value.category.None? <==> AllWhitespace(category))
    ensures r.Some? && r.value.category.Some? ==>
      r.value.category.value != [] && Trim(r.value.category.value) == r.value.category.value
    ensures r.Some? && r.value.category.Some? ==> exists k :: TrimmedAt(category, r.value.category.value, k)
  {
    TrimIdempotent(skillName);
    TrimIdempotent(category);
    if Trim(skillName) != [] then
      Some(Submission(Trim(skillName), if Trim(category) != [] then Some(Trim(category)) else None))
    else None
  }

  /** The submission's contract leaves one choice for each field: the submitted
      name is `skillName.trim()`, and the category is `category.trim()` unless that
      is empty. */
  lemma SubmittedFieldsAreTrimmed(skillName: string, category: string)
    requires !AllWhitespace(skillName)
    ensures SubmissionFor(skillName, category).value.skillName == Trim(skillName)
    ensures SubmissionFor(skillName, category).value.category ==
      if Trim(category) == [] then None else Some(Trim(category))
  {
    var r := SubmissionFor(skillName, category).value;
    var k :| TrimmedAt(skillName, r.skillName, k);
    TrimIdempotent(r.skillName);
    TrimUnique(skillName, r.skillName, k);
    if r.category.Some? {
      var c := r.category.value;
      var m :| TrimmedAt(category, c, m);
      TrimIdempotent(c);
      TrimUnique(category, c, m);
    }
  }

  class SkillFormState {
    var skillName: string
    var category: string

    /** Both fields start empty. */
    constructor ()
      ensures skillName == "" && category == ""
    {
      skillName := "";
      category := "";
    }

    /** The name field's `onChange`. */
    method SetSkillName(value: string)
      modifies this
      ensures skillName == value && category == old(category)
    {
      skillName := value;
    }

    /** The category field's `onChange`. */
    method SetCategory(value: string)
      modifies this
      ensures category == value && skillName == old(skillName)
    {
      category := value;
    }

    /** The submit button is disabled exactly when the trimmed name is empty. */
    function SubmitDisabled(): (disabled: bool)
      reads this
      ensures disabled <==> SubmissionFor(skillName, category).None?
    {
      Trim(skillName) == []
    }

    /** `handleSubmit`: when the trimmed name is not empty, hands the trimmed fields
      to `onSubmit` (the returned submission) and clears both fields; otherwise
      does nothing. */
    method HandleSubmit() returns (submitted: Option<Submission>)
      modifies this
      ensures submitted == SubmissionFor(old(skillName), old(category))
      ensures submitted.Some? ==> skillName == "" && category == ""
      ensures submitted.None? ==> skillName == old(skillName) && category == old(category)
    {
      submitted := SubmissionFor(skillName, category);
      if submitted.Some? {
        skillName := "";
        category := "";
      }
    }
  }
}
