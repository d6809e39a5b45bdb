/**
  The field-key rule of `getFieldKey` at the level of the bytes of a Go
  string. Go strings are UTF-8 byte sequences; `range` over a string yields
  the byte offset of each rune together with the rune. The default key is
  built from the lowered first rune followed by the rest of the name, and the
  source takes "the rest" as the bytes from offset `i + 1` on, which is right
  only when the first rune is one byte long.

  Unicode case mapping is not modelled: `lowered` stands for the UTF-8
  encoding of `unicode.ToLower` applied to the first rune.
*/
module FieldKeyUtf8 {

  type Byte = b: int | 0 <= b < 256

  /** A byte that continues a multi-byte sequence: 10xxxxxx. */
  predicate IsCont(b: Byte) {
    0x80 <= b < 0xC0
  }

  /** A byte that can start a sequence: ASCII, or a lead byte of a 2-, 3- or
      4-byte sequence (C0, C1 and F5 to FF never occur in UTF-8). */
  predicate IsLead(b: Byte) {
    b < 0x80 || 0xC2 <= b < 0xF5
  }

  /** How many bytes the sequence started by `lead` announces; a byte that
      cannot start a sequence announces 1. */
  function RuneLen(lead: Byte): (n: nat)
    ensures 1 <= n <= 4
    ensures lead < 0x80 ==> n == 1
  {
    if lead < 0x80 then 1
    else if 0xC2 <= lead < 0xE0 then 2
    else if 0xE0 <= lead < 0xF0 then 3
    else if 0xF0 <= lead < 0xF5 then 4
    else 1
  }

  /** The width by which `range` over `s` advances past the first rune: the
      announced length when the sequence is complete, otherwise 1 (Go then
      yields the error rune U+FFFD for that single byte). */
  function FirstWidth(s: seq<Byte>): (w: nat)
    requires |s| > 0
    ensures 1 <= w <= |s|
    ensures w > 1 <==> RuneLen(s[0]) > 1 && RuneLen(s[0]) <= |s| &&
                       (forall k :: 1 <= k < RuneLen(s[0]) ==> IsCont(s[k]))
  {
    var n := RuneLen(s[0]);
    if n <= |s| && forall k :: 1 <= k < n ==> IsCont(s[k]) then n else 1
  }

  /** Well-formed UTF-8 as far as sequence structure goes: each lead byte is
      followed by exactly the continuation bytes it announces. */
  predicate ValidUtf8(s: seq<Byte>)
    decreases |s|
  {
    |s| == 0 ||
    (IsLead(s[0]) && RuneLen(s[0]) <= |s| &&
     (forall k :: 1 <= k < RuneLen(s[0]) ==> IsCont(s[k])) &&
     ValidUtf8(s[RuneLen(s[0])..]))
  }

  /** The key the source computes: the tag unless it is empty or "-", then
      the lowered first rune followed by the name from byte 1 on. */
  function KeyAsWritten(name: seq<Byte>, tag: seq<Byte>, lowered: seq<Byte>): (key: seq<Byte>)
    ensures (tag == [0x2D] || tag == []) && |name| > 0 ==>
              |key| == |lowered| + |name| - 1 &&
              key[..|lowered|] == lowered && key[|lowered|..] == name[1..]
    ensures !((tag == [0x2D] || tag == []) && |name| > 0) ==> key == tag
  {
    if (tag == [0x2D] || tag == []) && |name| > 0 then lowered + name[1..] else tag
  }

  /** The key the comment "lowercase first char" asks for: the lowered first
      rune followed by the name after that whole rune, that is, after the
      bytes `range` stepped over to reach the second rune. */
  function KeyIntended(name: seq<Byte>, tag: seq<Byte>, lowered: seq<Byte>): (key: seq<Byte>)
    ensures (tag == [0x2D] || tag == []) && |name| > 0 ==>
              |key| == |lowered| + |name| - FirstWidth(name) &&
              key[..|lowered|] == lowered && key[|lowered|..] == name[FirstWidth(name)..]
    ensures !((tag == [0x2D] || tag == []) && |name| > 0) ==> key == tag
    ensures |name| > 0 && FirstWidth(name) == 1 ==> key == KeyAsWritten(name, tag, lowered)
  {
    if (tag == [0x2D] || tag == []) && |name| > 0 then lowered + name[FirstWidth(name)..] else tag
  }

  /** Concatenating two well-formed strings gives a well-formed string. */
  lemma {:induction false} ValidConcat(a: seq<Byte>, b: seq<Byte>)
    requires ValidUtf8(a) && ValidUtf8(b)
    ensures ValidUtf8(a + b)
    decreases |a|
  {
    if |a| > 0 {
      var n := RuneLen(a[0]);
      ValidConcat(a[n..], b);
      assert (a + b)[0] == a[0];
      assert (a + b)[n..] == a[n..] + b;
      assert forall k :: 1 <= k < n ==> (a + b)[k] == a[k];
    } else {
      assert a + b == b;
    }
  }

  /** The intended key of a well-formed name, tag and lowered rune is well formed. */
  lemma IntendedKeepsUtf8(name: seq<Byte>, tag: seq<Byte>, lowered: seq<Byte>)
    requires ValidUtf8(name) && ValidUtf8(tag) && ValidUtf8(lowered)
    ensures ValidUtf8(KeyIntended(name, tag, lowered))
  {
    if (tag == [0x2D] || tag == []) && |name| > 0 {
      assert FirstWidth(name) == RuneLen(name[0]);
      ValidConcat(lowered, name[FirstWidth(name)..]);
    }
  }

  /** The name "Éa" (C3 89 61) with no tag, whose first rune lowers to "é"
      (C3 A9): the source's key C3 A9 89 61 keeps the stray continuation byte
      89 and is not UTF-8, while the intended key is "éa" (C3 A9 61). */
  lemma AsWrittenBreaksUtf8()
    ensures ValidUtf8([0xC3, 0x89, 0x61]) && ValidUtf8([0xC3, 0xA9])
    ensures KeyAsWritten([0xC3, 0x89, 0x61], [], [0xC3, 0xA9]) == [0xC3, 0xA9, 0x89, 0x61]
    ensures !ValidUtf8(KeyAsWritten([0xC3, 0x89, 0x61], [], [0xC3, 0xA9]))
    ensures KeyIntended([0xC3, 0x89, 0x61], [], [0xC3, 0xA9]) == [0xC3, 0xA9, 0x61]
  {
  }
}
