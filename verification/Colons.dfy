/** The first ':' of a string, as `find(':')` and `split(":")` see it. */
module Colons {

  /** Where it stands, or the length if there is none. */
  function ColonAt(s: string): (i: nat)
    ensures i <= |s| && ':' !in s[..i]
    ensures i < |s| ==> s[i] == ':'
  {
    if s == "" then 0 else if s[0] == ':' then 0 else
      var i := 1 + ColonAt(s[1..]);
      assert s[..i] == [s[0]] + s[1..][..i - 1];
      i
  }

  lemma {:induction false} NoColonIn(s: string, n: nat)
    requires n <= |s| && ':' !in s[..n]
    ensures forall i :: 0 <= i < n ==> s[i] != ':'
  {
    assert forall i :: 0 <= i < n ==> s[..n][i] == s[i];
  }

  lemma {:induction false} FirstColon(s: string, i: nat)
    requires i <= |s| && ':' !in s[..i] && (i < |s| ==> s[i] == ':')
    ensures ColonAt(s) == i
  {
    NoColonIn(s, i);
    NoColonIn(s, ColonAt(s));
  }
}
