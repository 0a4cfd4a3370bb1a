/**
 C strings (kernel/String/String.c). A pointer is modelled by the bytes readable from it.
 */
module Strings {
  import opened Words

  /** The index of the first NUL at or after `from`, or |s| when there is none. */
  function NulAt(s: Bytes, from: nat): (n: nat)
    requires from <= |s|
    ensures from <= n <= |s|
    ensures forall i :: from <= i < n ==> s[i] != 0
    ensures n < |s| ==> s[n] == 0
    decreases |s| - from
  {
    if from == |s| || s[from] == 0 then from else NulAt(s, from + 1)
  }

  ghost predicate Terminated(s: Bytes) {
    0 in s
  }

  predicate NulFree(s: Bytes) {
    forall i :: 0 <= i < |s| ==> s[i] != 0
  }

  /** The string a pointer denotes: the bytes before the first NUL. */
  function CString(s: Bytes): (t: Bytes)
    ensures NulFree(t) && t <= s
  {
    s[..NulAt(s, 0)]
  }

  /** The bytes of a source literal, without its terminator. */
  function Ascii(s: string): (b: Bytes)
    requires forall i :: 0 <= i < |s| ==> 0 < s[i] as int < 0x80
    ensures |b| == |s| && NulFree(b)
    ensures forall i :: 0 <= i < |s| ==> b[i] as int == s[i] as int
  {
    seq(|s|, i requires 0 <= i < |s| && 0 < s[i] as int < 0x80 => ByteOf(s[i]))
  }

  function ByteOf(c: char): Byte
    requires c as int < 0x80
  {
    c as int
  }

  /** The bytes are this text. */
  ghost predicate Says(b: Bytes, text: string) {
    |b| == |text| && forall i :: 0 <= i < |b| ==> b[i] as int == text[i] as int
  }

  method StringLength(s: Bytes) returns (n: nat)
    requires Terminated(s)
    ensures n < |s| && s[n] == 0 && NulFree(s[..n])
    ensures n == |CString(s)|
  {
    n := 0;
    while s[n] != 0
      invariant n <= NulAt(s, 0) < |s|
      decreases |s| - n
    {
      n := n + 1;
    }
    assert NulAt(s, 0) == n;
  }

  method StringCompare(text: Bytes, other: Bytes) returns (same: bool)
    requires Terminated(text) && Terminated(other)
    ensures same <==> CString(text) == CString(other)
  {
    var lengthText := StringLength(text);
    var lengthOther := StringLength(other);
    if lengthText != lengthOther {
      return false;
    }
    for i := 0 to lengthText
      invariant text[..i] == other[..i]
    {
      if text[i] != other[i] {
        assert CString(text)[i] == text[i] && CString(other)[i] == other[i];
        return false;
      }
      assert text[..i + 1] == text[..i] + [text[i]] && other[..i + 1] == other[..i] + [other[i]];
    }
    return true;
  }

  /** What the bounded comparison decides, on any bytes readable up to its length. */
  predicate BoundedEqual(text: Bytes, other: Bytes, length: nat, checkNul: bool)
    requires length <= |text| && length <= |other|
    requires checkNul ==> length < |text| && length < |other|
  {
    text[..length] == other[..length] && (checkNul ==> text[length] == 0 && other[length] == 0)
  }

  method StringCompareWithLength(text: Bytes, other: Bytes, expectedLength: nat, checkNul: bool)
    returns (same: bool)
    requires expectedLength <= |text| && expectedLength <= |other|
    requires checkNul ==> expectedLength < |text| && expectedLength < |other|
    ensures same <==> BoundedEqual(text, other, expectedLength, checkNul)
    ensures same <==>
      && (forall i :: 0 <= i < expectedLength ==> text[i] == other[i])
      && (checkNul ==> text[expectedLength] == 0 && other[expectedLength] == 0)
  {
    if checkNul {
      if text[expectedLength] != 0 || other[expectedLength] != 0 {
        return false;
      }
    }
    for i := 0 to expectedLength
      invariant text[..i] == other[..i]
    {
      if text[i] != other[i] {
        assert text[..expectedLength][i] != other[..expectedLength][i];
        return false;
      }
      assert text[..i + 1] == text[..i] + [text[i]] && other[..i + 1] == other[..i] + [other[i]];
    }
    return true;
  }

  /** The compiler's literal: its bytes and the terminator. */
  function Literal(l: Bytes): (s: Bytes)
    ensures |s| == |l| + 1 && s[|l|] == 0 && s[..|l|] == l
  {
    l + [0]
  }

  /** The bounded comparison against a literal finds exactly the strings equal to it, even when
      the text is not terminated anywhere else. */
  lemma BoundedEqualIsStringEqual(text: Bytes, l: Bytes)
    requires NulFree(l) && |l| < |text|
    ensures BoundedEqual(text, Literal(l), |l|, true) <==> CString(text) == l
  {
    var n := NulAt(text, 0);
    if BoundedEqual(text, Literal(l), |l|, true) {
      assert forall i :: 0 <= i < |l| ==> text[..|l|][i] == text[i];
      assert n == |l|;
    }
    if CString(text) == l {
      assert n == |l|;
    }
  }

  /** On terminated text both comparisons of the source agree. */
  lemma ComparisonsAgree(text: Bytes, l: Bytes)
    requires NulFree(l) && |l| < |text| && Terminated(text)
    ensures BoundedEqual(text, Literal(l), |l|, true) <==> CString(text) == CString(Literal(l))
  {
    BoundedEqualIsStringEqual(text, l);
    CStringOfLiteral(l, []);
    assert Literal(l) == l + [0] + [];
  }

  /** Reading a terminated string back. */
  lemma CStringOfLiteral(l: Bytes, rest: Bytes)
    requires NulFree(l)
    ensures CString(l + [0] + rest) == l
    ensures NulAt(l + [0] + rest, 0) == |l|
  {
    var s := l + [0] + rest;
    assert forall i :: 0 <= i < |l| ==> s[i] == l[i];
    assert s[|l|] == 0;
    assert s[..|l|] == l;
  }

  /** string_compare_with_length against a literal of known length, with the termination check. */
  method CompareToLiteral(text: Bytes, l: Bytes, expectedLength: nat) returns (same: bool)
    requires NulFree(l) && |l| == expectedLength < |text|
    ensures same <==> CString(text) == l
  {
    BoundedEqualIsStringEqual(text, l);
    same := StringCompareWithLength(text, Literal(l), expectedLength, true);
  }
}
