/** The request check of the HTTP entry point (index.js:137-141). Only the
    check is modelled: the entry point answers 400 to a body that fails it
    and otherwise hands the body's fields to `renderTextOverlay`. */
module Handler {
  import opened FilterGraph

  /** A field of the JSON request body, as far as the check tells values
      apart: missing, a string, an array, or any other value with its
      JavaScript truthiness. */
  datatype Field = Missing | Str(value: string) | Array(items: seq<Overlay>) | OtherValue(truthy: bool)

  /** JavaScript truthiness: only a missing field, the empty string and the
      falsy scalars (`false`, `0`, `null`, ...) are falsy; every array is
      truthy, even an empty one. */
  predicate Truthy(f: Field)
  {
    match f
    case Missing => false
    case Str(value) => value != ""
    case Array(_) => true
    case OtherValue(truthy) => truthy
  }

  /** `!(!body.videoUrl || !body.overlays || !Array.isArray(body.overlays))`:
      the body is accepted exactly when the video address is truthy and the
      overlays are an array. An empty array passes. */
  function ValidRequest(videoUrl: Field, overlays: Field): (ok: bool)
    ensures ok <==> Truthy(videoUrl) && overlays.Array?
  {
    !(!Truthy(videoUrl) || !Truthy(overlays) || !overlays.Array?)
  }
}
