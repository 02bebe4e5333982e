/** The gateway's `@NullableNotBlank` constraint: a field may be absent, but
    when present it must hold something besides the characters `trim()`
    removes. */
module NullableNotBlankValidator {
  import opened Common
  import opened Text

  /** `s == null || s.trim().length() > 0`. */
  function IsValid(s: Option<string>): (r: bool)
    ensures s.None? ==> r
    ensures s == Some("") ==> !r
    ensures s.Some? ==> (r <==> exists k :: 0 <= k < |s.value| && s.value[k] > ' ')
    ensures s.Some? && (forall k :: 0 <= k < |s.value| ==> s.value[k] <= ' ') ==> !r
  {
    match s
    case None => true
    case Some(text) =>
      TrimNonEmpty(text);
      |Trim(text)| > 0
  }
}
