/** Text helpers: Java's `String.trim`, which strips every character whose
    code is at most U+0020 from both ends of a string. */
module Text {

  /** The characters `String.trim` strips: U+0000 to U+0020. */
  predicate IsSpace(c: char) {
    c <= ' '
  }

  /** True when the string consists only of strippable characters. */
  predicate IsBlank(s: string) {
    forall k :: 0 <= k < |s| ==> IsSpace(s[k])
  }

  /** True when neither end of the string carries a strippable character. */
  predicate IsTrimmed(s: string) {
    s == [] || (!IsSpace(s[0]) && !IsSpace(s[|s| - 1]))
  }

  /** Drops the strippable characters at the front: the result is the longest
      suffix of `s` that does not start with one. */
  function TrimLeading(s: string): (r: string)
    ensures |r| <= |s| && r == s[|s| - |r|..]
    ensures IsBlank(s[..|s| - |r|])
    ensures r == [] || !IsSpace(r[0])
  {
    if s != [] && IsSpace(s[0]) then TrimLeading(s[1..]) else s
  }

  /** Drops the strippable characters at the back: the result is the longest
      prefix of `s` that does not end with one. */
  function TrimTrailing(s: string): (r: string)
    ensures |r| <= |s| && r == s[..|r|]
    ensures IsBlank(s[|r|..])
    ensures r == [] || !IsSpace(r[|r| - 1])
  {
    if s != [] && IsSpace(s[|s| - 1]) then TrimTrailing(s[..|s| - 1]) else s
  }

  /** `String.trim`: the middle of `s` once both blank ends are cut off. */
  function Trim(s: string): (r: string)
    ensures |r| <= |s|
    ensures IsTrimmed(r)
    ensures r == [] <==> IsBlank(s)
    ensures IsTrimmed(s) ==> r == s
  {
    TrimEmptyIffBlank(s);
    TrimTrailing(TrimLeading(s))
  }

  lemma TrimEmptyIffBlank(s: string)
    ensures TrimTrailing(TrimLeading(s)) == [] <==> IsBlank(s)
  {
    var a := TrimLeading(s);
    TrimLeadingBlank(s);
    assert a[0..] == a;
  }

  /** `TrimLeading` leaves a blank string only when `s` was blank, and then
      it leaves nothing. */
  lemma {:induction false} TrimLeadingBlank(s: string)
    ensures IsBlank(TrimLeading(s)) <==> IsBlank(s)
    ensures IsBlank(s) ==> TrimLeading(s) == []
  {
    if s != [] && IsSpace(s[0]) {
      TrimLeadingBlank(s[1..]);
      assert IsBlank(s) <==> IsBlank(s[1..]) by {
        assert forall k :: 0 <= k < |s[1..]| ==> s[1..][k] == s[k + 1];
      }
    }
  }

  /** What `Trim` keeps is a contiguous piece of `s`, and everything it cuts
      off on either side is blank. */
  lemma TrimCut(s: string) returns (i: nat)
    ensures i + |Trim(s)| <= |s|
    ensures s[i..i + |Trim(s)|] == Trim(s)
    ensures IsBlank(s[..i]) && IsBlank(s[i + |Trim(s)|..])
  {
    var a := TrimLeading(s);
    var r := TrimTrailing(a);
    i := |s| - |a|;
    assert s[i + |r|..] == a[|r|..];
  }

  /** Trimming twice strips nothing more than trimming once. */
  lemma TrimIdempotent(s: string)
    ensures Trim(Trim(s)) == Trim(s)
  {
  }
}
