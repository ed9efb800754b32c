/** `Capitalize(string)`: the first character upper-cased, the rest unchanged. */
module Capitalization {
  import opened Wrappers
  import opened Ascii

  /** `string[0].capitalize() + string[1:]`, or `None` for the empty string,
      on which the indexing `string[0]` raises `IndexError`. */
  function Capitalize(s: string): (r: Option<string>)
    ensures r.None? <==> |s| == 0
    ensures r.Some? ==> |r.value| == |s| && r.value[1..] == s[1..]
    ensures r.Some? ==> !IsLower(r.value[0])
    ensures r.Some? && IsLower(s[0]) ==> IsUpper(r.value[0]) && ToLower(r.value[0]) == s[0]
    ensures r.Some? && !IsLower(s[0]) ==> r.value == s
  {
    if |s| == 0 then None else Some([ToUpper(s[0])] + s[1..])
  }

  /** Capitalizing a capitalized string changes nothing. */
  lemma CapitalizeIdempotent(s: string)
    requires Capitalize(s).Some?
    ensures Capitalize(Capitalize(s).value) == Capitalize(s)
  {
  }
}
