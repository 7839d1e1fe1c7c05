/** Submitted HTML form fields, `request.form`, as a map from field name to text. */
module Forms {
  import opened Wrappers

  type Form = map<string, string>

  /** `request.form.get(name)`. */
  function Get(form: Form, name: string): (r: Option<string>)
    ensures r.Some? <==> name in form
    ensures r.Some? ==> r.value == form[name]
  {
    if name in form then Some(form[name]) else None
  }

  /** `request.form.get(name) or ''`: a missing field reads as the empty string. */
  function FieldOrEmpty(form: Form, name: string): (r: string)
    ensures name in form ==> r == form[name]
    ensures name !in form ==> r == ""
  {
    Get(form, name).GetOr("")
  }
}
