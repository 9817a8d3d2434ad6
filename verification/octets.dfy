/** Bytes and NUL-terminated fields, as the SOCKS 4 request carries them. */
module Octets {

  newtype byte = x: int | 0 <= x < 256

  /** The byte that ends the user id and the domain fields. */
  const Terminator: byte := 0

  predicate NoTerminator(s: seq<byte>) {
    forall i :: 0 <= i < |s| ==> s[i] != Terminator
  }

  /** Index of the first terminator in `s`, or `|s|` when there is none. */
  function FirstTerminator(s: seq<byte>): (i: nat)
    ensures i <= |s|
    ensures i < |s| ==> s[i] == Terminator
  {
    if s == [] then 0
    else if s[0] == Terminator then 0
    else 1 + FirstTerminator(s[1..])
  }

  /** No terminator comes before the first one. */
  lemma {:induction false} BeforeFirstTerminator(s: seq<byte>)
    ensures NoTerminator(s[..FirstTerminator(s)])
  {
    if s != [] && s[0] != Terminator {
      var j := FirstTerminator(s[1..]);
      BeforeFirstTerminator(s[1..]);
      assert s[..1 + j] == [s[0]] + s[1..][..j];
    }
  }

  /** The bytes a C string starting at the front of `s` denotes: everything
      before the first terminator. */
  function CString(s: seq<byte>): (c: seq<byte>)
    ensures NoTerminator(c)
    ensures |c| <= |s| && c == s[..|c|]
    ensures |c| < |s| ==> s[|c|] == Terminator
  {
    BeforeFirstTerminator(s);
    s[..FirstTerminator(s)]
  }

  /** The first terminator is the only position with a terminator and no
      terminator before it. */
  lemma {:induction false} FirstTerminatorUnique(s: seq<byte>, i: nat)
    requires i <= |s| && NoTerminator(s[..i])
    requires i < |s| ==> s[i] == Terminator
    ensures FirstTerminator(s) == i
  {
    if s != [] && i > 0 {
      assert s[0] == s[..i][0];
      assert s[1..][..i - 1] == s[..i][1..];
      FirstTerminatorUnique(s[1..], i - 1);
    }
  }

  /** A terminator-free prefix shifts the first terminator by its length. */
  lemma FirstTerminatorAfter(a: seq<byte>, b: seq<byte>)
    requires NoTerminator(a)
    ensures FirstTerminator(a + b) == |a| + FirstTerminator(b)
  {
    var j := FirstTerminator(b);
    var s := a + b;
    BeforeFirstTerminator(b);
    forall k | 0 <= k < |a| + j
      ensures s[k] != Terminator
    {
      if k >= |a| {
        assert s[k] == b[..j][k - |a|];
      }
    }
    assert NoTerminator(s[..|a| + j]);
    FirstTerminatorUnique(s, |a| + j);
  }

  /** Bytes appended after a terminator do not move the first one. */
  lemma FirstTerminatorBefore(a: seq<byte>, b: seq<byte>)
    requires FirstTerminator(a) < |a|
    ensures FirstTerminator(a + b) == FirstTerminator(a)
  {
    var i := FirstTerminator(a);
    BeforeFirstTerminator(a);
    assert (a + b)[..i] == a[..i];
    FirstTerminatorUnique(a + b, i);
  }

  /** A sequence without a terminator has none in its prefix either. */
  lemma NoTerminatorInPrefix(a: seq<byte>, b: seq<byte>)
    requires FirstTerminator(a + b) == |a + b|
    ensures FirstTerminator(a) == |a|
  {
    if FirstTerminator(a) < |a| {
      FirstTerminatorBefore(a, b);
    }
  }
}
