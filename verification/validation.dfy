/** The checks the create route makes on a parsed request body before it
    touches the collection: title first, then url, stopping at the first
    failure. Rating and description are not checked. */
module Validation {
  import opened Wrappers
  import opened Values

  /** The fields the create route reads from the body; any may be absent. */
  datatype Payload = Payload(
    title: Option<Value>,
    url: Option<Value>,
    description: Option<Value>,
    rating: Option<Value>)

  /** Why a payload was refused; the source logs a different line for each
      but answers both with the same 400. */
  datatype Problem = TitleRequired | UrlRequired

  datatype Verdict = Valid | Invalid(problem: Problem)

  function ValidateCreate(p: Payload): (v: Verdict)
    ensures v.Valid? <==> Present(p.title) && Present(p.url)
    ensures v == Invalid(TitleRequired) <==> !Present(p.title)
    ensures v == Invalid(UrlRequired) <==> Present(p.title) && !Present(p.url)
  {
    if !Present(p.title) then Invalid(TitleRequired)
    else if !Present(p.url) then Invalid(UrlRequired)
    else Valid
  }

  /** Title is checked before url: a body missing both is refused for its
      title, and the url is never looked at. */
  lemma TitleCheckedFirst(p: Payload)
    requires !Present(p.title)
    ensures ValidateCreate(p) == Invalid(TitleRequired)
    ensures forall u :: ValidateCreate(p.(url := u)) == Invalid(TitleRequired)
  {
  }

  /** Falsy values count as missing: an empty string, `0`, `false` or
      `null` title is refused exactly like an absent one. */
  lemma FalsyTitleRefused(url: Option<Value>, description: Option<Value>, rating: Option<Value>)
    ensures forall t :: t in [Str(""), Num(0.0), Bool(false), Null] ==>
      ValidateCreate(Payload(Some(t), url, description, rating)) == Invalid(TitleRequired)
  {
  }
}
