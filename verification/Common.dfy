/** Definitions shared by the modules that model separate source files. */
module Common {
  datatype Option<+T> = None | Some(value: T)
  {
    function GetOr(default: T): T {
      if Some? then value else default
    }
  }

  /** The length of the string at the start of `s`: up to the first `nul`, or all of it. */
  function StrLen<T(==)>(s: seq<T>, nul: T): (n: nat)
    ensures n <= |s| && (n < |s| ==> s[n] == nul)
    ensures forall i :: 0 <= i < n ==> s[i] != nul
  {
    if s == [] || s[0] == nul then 0 else 1 + StrLen(s[1..], nul)
  }
}
