/** Bytes, their ISO-8859-1 (Latin-1) decoding, and the substring test that
    Python's `in` performs on strings. */
module Bytes {

  newtype byte = x: int | 0 <= x < 256

  /** Decoding with ISO-8859-1 maps every byte to the character with the same
      code; it is total, so decoding never fails. */
  function Latin1Decode(bs: seq<byte>): (s: string)
    ensures |s| == |bs|
    ensures forall i :: 0 <= i < |bs| ==> s[i] as int == bs[i] as int
    ensures forall i :: 0 <= i < |s| ==> s[i] as int < 256
  {
    if bs == [] then [] else [(bs[0] as int) as char] + Latin1Decode(bs[1..])
  }

  /** The encoder of the same character set, defined on characters below 256. */
  function Latin1Encode(s: string): (bs: seq<byte>)
    requires forall i :: 0 <= i < |s| ==> s[i] as int < 256
    ensures |bs| == |s|
    ensures forall i :: 0 <= i < |s| ==> bs[i] as int == s[i] as int
  {
    if s == [] then [] else [(s[0] as int) as byte] + Latin1Encode(s[1..])
  }

  /** Encoding undoes decoding, so the decoded text carries exactly the bytes. */
  lemma Latin1RoundTrip(bs: seq<byte>)
    ensures Latin1Encode(Latin1Decode(bs)) == bs
  {
    var r := Latin1Encode(Latin1Decode(bs));
    assert |r| == |bs|;
    forall i | 0 <= i < |bs| ensures r[i] == bs[i] {
    }
  }

  /** Two byte sequences decode to the same text only if they are equal. */
  lemma Latin1DecodeInjective(a: seq<byte>, b: seq<byte>)
    ensures Latin1Decode(a) == Latin1Decode(b) <==> a == b
  {
    if Latin1Decode(a) == Latin1Decode(b) {
      Latin1RoundTrip(a);
      Latin1RoundTrip(b);
    }
  }

  /** Decoding commutes with taking a slice. */
  lemma Latin1DecodeSlice(bs: seq<byte>, i: nat, j: nat)
    requires i <= j <= |bs|
    ensures Latin1Decode(bs)[i..j] == Latin1Decode(bs[i..j])
  {
    var l, r := Latin1Decode(bs)[i..j], Latin1Decode(bs[i..j]);
    assert |l| == |r|;
    forall k | 0 <= k < |l| ensures l[k] == r[k] {
      assert l[k] as int == bs[i + k] as int;
      assert r[k] as int == bs[i..j][k] as int;
    }
  }

  /** Python's `pat in s` for strings: some window of `s` equals `pat`
      (the empty pattern occurs in every string). */
  predicate Occurs(pat: string, s: string)
    decreases |s|
  {
    |pat| <= |s| && (s[..|pat|] == pat || Occurs(pat, s[1..]))
  }

  /** `pat` starts at offset `i` of `s`. */
  predicate OccursAt(pat: string, s: string, i: int)
  {
    0 <= i <= |s| - |pat| && s[i..i + |pat|] == pat
  }

  /** The recursive scan finds the pattern exactly when it starts at some
      offset that leaves room for the whole pattern. */
  lemma {:induction false} OccursIff(pat: string, s: string)
    ensures Occurs(pat, s) <==> exists i :: OccursAt(pat, s, i)
    decreases |s|
  {
    if |pat| <= |s| {
      if s[..|pat|] == pat {
        assert OccursAt(pat, s, 0);
      } else {
        OccursIff(pat, s[1..]);
        if Occurs(pat, s[1..]) {
          var i :| OccursAt(pat, s[1..], i);
          assert s[i + 1..i + 1 + |pat|] == s[1..][i..i + |pat|];
          assert OccursAt(pat, s, i + 1);
        }
        if i :| OccursAt(pat, s, i) {
          assert i != 0 by { assert s[..|pat|] == s[0..0 + |pat|]; }
          assert s[1..][i - 1..i - 1 + |pat|] == s[i..i + |pat|];
          assert OccursAt(pat, s[1..], i - 1);
        }
      }
    }
  }
}
