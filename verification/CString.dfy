/** NUL-terminated text in a byte buffer. */
module CString {
  import opened Machine

  predicate HasNul(s: seq<Byte>, i: nat)
    requires i <= |s|
  {
    exists j :: i <= j < |s| && s[j] == 0
  }

  /** The position of the first NUL at or after i, or the length of the buffer. */
  function NulAt(s: seq<Byte>, i: nat): (j: nat)
    requires i <= |s|
    ensures i <= j <= |s|
    ensures forall k :: i <= k < j ==> s[k] != 0
    ensures j < |s| ==> s[j] == 0
    ensures j == |s| <==> !HasNul(s, i)
    decreases |s| - i
  {
    if i == |s| then i
    else if s[i] == 0 then assert HasNul(s, i); i
    else
      var j := NulAt(s, i + 1);
      assert HasNul(s, i + 1) ==> HasNul(s, i);
      j
  }

  /** The C string that starts at position i. */
  function CStr(s: seq<Byte>, i: nat): (t: seq<Byte>)
    requires i <= |s|
    ensures 0 !in t
  {
    s[i..NulAt(s, i)]
  }

  lemma NulAtIs(s: seq<Byte>, i: nat, j: nat)
    requires i <= j < |s| && s[j] == 0 && forall k :: i <= k < j ==> s[k] != 0
    ensures NulAt(s, i) == j
  {
  }

  /** Text written into a buffer and closed by a NUL is the C string at its position. */
  lemma CStrAt(pre: seq<Byte>, t: seq<Byte>, post: seq<Byte>)
    requires 0 !in t
    ensures CStr(pre + t + [0] + post, |pre|) == t
  {
    var s := pre + t + [0] + post;
    assert forall k :: |pre| <= k < |pre| + |t| ==> s[k] == t[k - |pre|];
    NulAtIs(s, |pre|, |pre| + |t|);
  }
}
