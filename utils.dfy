/**
 * The two string helpers applied to portal pages and server replies:
 * extraction of the text between the first start marker and the first end
 * marker after it, and the lenient repair of bare `&` characters that runs
 * before every XML decode.
 */
module Utils {
  import opened Bytes
  import opened Wrappers

  /** `t` occurs in `s` at position `k`. */
  predicate OccursAt(s: GoString, t: GoString, k: int) {
    0 <= k && k + |t| <= |s| && s[k..k + |t|] == t
  }

  predicate Contains(s: GoString, t: GoString) {
    exists k :: 0 <= k <= |s| && OccursAt(s, t, k)
  }

  /** The first occurrence of `t` in `s` at or after `k`, or -1. */
  function IndexFrom(s: GoString, t: GoString, k: nat): (r: int)
    ensures r == -1 || (k <= r && OccursAt(s, t, r))
    decreases |s| - k
  {
    if k + |t| > |s| then -1
    else if s[k..k + |t|] == t then k
    else IndexFrom(s, t, k + 1)
  }

  /** No occurrence at or after `k` comes before the one `IndexFrom` finds. */
  lemma {:induction false} IndexFromFirst(s: GoString, t: GoString, k: nat, m: int)
    requires k <= m && (IndexFrom(s, t, k) == -1 || m < IndexFrom(s, t, k))
    ensures !OccursAt(s, t, m)
    decreases |s| - k
  {
    if k + |t| <= |s| && s[k..k + |t|] != t && k < m {
      IndexFromFirst(s, t, k + 1, m);
    }
  }

  /** `strings.Index`: the first occurrence of `t` in `s`, or -1. */
  function Index(s: GoString, t: GoString): (r: int)
    ensures r == -1 || OccursAt(s, t, r)
  {
    IndexFrom(s, t, 0)
  }

  /** `Index` is -1 exactly when `t` does not occur in `s`. */
  lemma IndexFound(s: GoString, t: GoString)
    ensures Index(s, t) == -1 <==> !Contains(s, t)
  {
    if Contains(s, t) && Index(s, t) == -1 {
      var k :| 0 <= k <= |s| && OccursAt(s, t, k);
      IndexFromFirst(s, t, 0, k);
    }
  }

  /** No occurrence of `t` comes before the one `Index` finds. */
  lemma IndexFirst(s: GoString, t: GoString, m: int)
    requires 0 <= m < Index(s, t)
    ensures !OccursAt(s, t, m)
  {
    IndexFromFirst(s, t, 0, m);
  }

  /**
   * `ExtractBetweenTags`: "" when the start marker is missing or no end
   * marker follows it. Once the start marker is found, the result is a
   * slice of `s` starting right after it.
   */
  function ExtractBetweenTags(s: GoString, startTag: GoString, endTag: GoString): (r: GoString)
    ensures Index(s, startTag) != -1 ==> OccursAt(s, r, Index(s, startTag) + |startTag|)
  {
    var startIndex := Index(s, startTag);
    if startIndex == -1 then []
    else
      var from := startIndex + |startTag|;
      var endIndex := Index(s[from..], endTag);
      if endIndex == -1 then []
      else s[from..from + endIndex]
  }

  /** Without a start marker, or without an end marker after the first start marker, the result is empty. */
  lemma ExtractMissing(s: GoString, startTag: GoString, endTag: GoString)
    ensures !Contains(s, startTag) ==> ExtractBetweenTags(s, startTag, endTag) == []
    ensures Contains(s, startTag) && !Contains(s[Index(s, startTag) + |startTag|..], endTag) ==>
              ExtractBetweenTags(s, startTag, endTag) == []
  {
    IndexFound(s, startTag);
    var i := Index(s, startTag);
    if i != -1 {
      IndexFound(s[i + |startTag|..], endTag);
    }
  }

  /** An occurrence in a suffix of `s` is an occurrence in `s`, shifted by where the suffix starts. */
  lemma OccursInSuffix(s: GoString, t: GoString, from: nat, e: nat)
    requires from <= |s| && OccursAt(s[from..], t, e)
    ensures OccursAt(s, t, from + e)
  {
    assert s[from..][e..e + |t|] == s[from + e..from + e + |t|];
  }

  /** An occurrence in a prefix of `s` is an occurrence in `s`. */
  lemma OccursInPrefix(s: GoString, t: GoString, n: nat, k: int)
    requires n <= |s| && OccursAt(s[..n], t, k)
    ensures OccursAt(s, t, k)
  {
    assert s[..n][k..k + |t|] == s[k..k + |t|];
  }

  /** Three adjacent pieces of `s` make one occurrence of their concatenation. */
  lemma Adjacent(s: GoString, i: nat, x: GoString, y: GoString, z: GoString)
    requires OccursAt(s, x, i) && OccursAt(s, y, i + |x|) && OccursAt(s, z, i + |x| + |y|)
    ensures OccursAt(s, x + y + z, i)
  {
    var j, k, m := i + |x|, i + |x| + |y|, i + |x| + |y| + |z|;
    assert s[i..m] == s[i..j] + s[j..k] + s[k..m];
  }

  /**
   * Otherwise the result sits between the end of the first start marker
   * and the first end marker after it: `startTag + r + endTag` occurs in
   * `s` at the first start marker.
   */
  lemma ExtractBetween(s: GoString, startTag: GoString, endTag: GoString)
    requires Contains(s, startTag) && Contains(s[Index(s, startTag) + |startTag|..], endTag)
    ensures OccursAt(s, startTag + ExtractBetweenTags(s, startTag, endTag) + endTag, Index(s, startTag))
  {
    IndexFound(s, startTag);
    var i := Index(s, startTag);
    var from := i + |startTag|;
    IndexFound(s[from..], endTag);
    var e := Index(s[from..], endTag);
    var r := s[from..from + e];
    OccursInSuffix(s, endTag, from, e);
    Adjacent(s, i, startTag, r, endTag);
  }

  /** A non-empty end marker never occurs in the result. */
  lemma ExtractHasNoEndTag(s: GoString, startTag: GoString, endTag: GoString)
    requires endTag != []
    ensures !Contains(ExtractBetweenTags(s, startTag, endTag), endTag)
  {
    var r := ExtractBetweenTags(s, startTag, endTag);
    var i := Index(s, startTag);
    if i != -1 {
      var from := i + |startTag|;
      var rest := s[from..];
      var e := Index(rest, endTag);
      if e != -1 {
        forall k | OccursAt(r, endTag, k) ensures false {
          assert r == rest[..e];
          OccursInPrefix(rest, endTag, e, k);
          IndexFirst(rest, endTag, k);
        }
      }
    }
  }

  const Amp: byte := 0x26
  const Semicolon: byte := 0x3B

  /** `&amp;`. */
  const EscapedAmp: GoString := [0x26, 0x61, 0x6D, 0x70, 0x3B]

  /** A space, `&`, `<` or `>` ends the search for a `;`. */
  predicate IsBreak(c: byte) {
    c == 0x20 || c == Amp || c == 0x3C || c == 0x3E
  }

  /** A `;` at some position from `j` to before `limit` and the end of `s`, with no break byte before it. */
  function SemicolonAhead(s: GoString, j: nat, limit: nat): bool
    decreases |s| - j
  {
    if j >= |s| || j >= limit then false
    else if s[j] == Semicolon then true
    else if IsBreak(s[j]) then false
    else SemicolonAhead(s, j + 1, limit)
  }

  /** The `&` at `i` already starts an entity reference: a `;` follows within the next nine bytes. */
  predicate Kept(s: GoString, i: nat)
    requires i < |s|
  {
    SemicolonAhead(s, i + 1, i + 10)
  }

  /** What the repair writes for byte `i`. */
  function Piece(s: GoString, i: nat): GoString
    requires i < |s|
  {
    if s[i] != Amp then [s[i]]
    else if Kept(s, i) then [Amp]
    else EscapedAmp
  }

  /** The repaired text from byte `i` on. */
  function FixedFrom(s: GoString, i: nat): GoString
    decreases |s| - i
  {
    if i >= |s| then [] else Piece(s, i) + FixedFrom(s, i + 1)
  }

  /** What `FixXMLAmpersands` returns: four bytes longer for every `&` it escapes. */
  function Fixed(s: GoString): (r: GoString)
    ensures |r| == |s| + 4 * ReplacedFrom(s, 0)
  {
    FixedLength(s, 0);
    FixedFrom(s, 0)
  }

  lemma Regroup(a: GoString, b: GoString, c: GoString)
    ensures a + (b + c) == (a + b) + c
  {
  }

  /** `FixXMLAmpersands`: the byte loop with its bounded look-ahead for `;`, appending to a builder. */
  method FixXmlAmpersands(s: GoString) returns (r: GoString)
    ensures r == Fixed(s)
  {
    var result: GoString := [];
    var i := 0;
    while i < |s|
      invariant 0 <= i <= |s|
      invariant result + FixedFrom(s, i) == Fixed(s)
    {
      var piece: GoString;
      if s[i] == Amp {
        var j := i + 1;
        var foundSemicolon := false;
        while j < |s| && j < i + 10
          invariant i + 1 <= j
          invariant !foundSemicolon
          invariant SemicolonAhead(s, j, i + 10) == Kept(s, i)
        {
          if s[j] == Semicolon {
            foundSemicolon := true;
            break;
          }
          if IsBreak(s[j]) {
            break;
          }
          j := j + 1;
        }
        piece := if foundSemicolon then [Amp] else EscapedAmp;
      } else {
        piece := [s[i]];
      }
      assert piece == Piece(s, i);
      Regroup(result, piece, FixedFrom(s, i + 1));
      result := result + piece;
      i := i + 1;
    }
    assert FixedFrom(s, i) == [];
    r := result;
  }

  /** How many `&` from byte `i` on are not kept. */
  function ReplacedFrom(s: GoString, i: nat): nat
    decreases |s| - i
  {
    if i >= |s| then 0
    else (if s[i] == Amp && !Kept(s, i) then 1 else 0) + ReplacedFrom(s, i + 1)
  }

  /** Every replaced `&` grows the text by the four bytes of `amp;`. */
  lemma {:induction false} FixedLength(s: GoString, i: nat)
    requires i <= |s|
    ensures |FixedFrom(s, i)| == |s| - i + 4 * ReplacedFrom(s, i)
    decreases |s| - i
  {
    if i < |s| {
      FixedLength(s, i + 1);
    }
  }

  /** A stretch without `&` is copied unchanged and in order. */
  lemma {:induction false} SegmentCopied(s: GoString, a: nat, b: nat)
    requires a <= b <= |s|
    requires forall k :: a <= k < b ==> s[k] != Amp
    ensures FixedFrom(s, a) == s[a..b] + FixedFrom(s, b)
    decreases b - a
  {
    if a < b {
      SegmentCopied(s, a + 1, b);
      assert FixedFrom(s, a) == [s[a]] + FixedFrom(s, a + 1);
      assert s[a..b] == [s[a]] + s[a + 1..b];
      Regroup([s[a]], s[a + 1..b], FixedFrom(s, b));
    }
  }

  /** Text without `&` is returned unchanged. */
  lemma NoAmpersandUnchanged(s: GoString)
    requires forall k :: 0 <= k < |s| ==> s[k] != Amp
    ensures Fixed(s) == s
  {
    SegmentCopied(s, 0, |s|);
  }

  /** Every `&` of `s` is kept. */
  predicate AllKept(s: GoString) {
    forall q :: 0 <= q < |s| && s[q] == Amp ==> Kept(s, q)
  }

  /** A `;` at `b`, before the limit, with no break byte from `a` up to it, is found. */
  lemma {:induction false} SemicolonFound(s: GoString, a: nat, b: nat, limit: nat)
    requires a <= b < |s| && b < limit && s[b] == Semicolon
    requires forall k :: a <= k < b ==> !IsBreak(s[k])
    ensures SemicolonAhead(s, a, limit)
    decreases b - a
  {
    if a < b {
      SemicolonFound(s, a + 1, b, limit);
    }
  }

  /** The search only looks forward, so text in front does not change it. */
  lemma {:induction false} SemicolonAheadShift(x: GoString, y: GoString, j: nat, limit: nat)
    ensures SemicolonAhead(x + y, |x| + j, |x| + limit) == SemicolonAhead(y, j, limit)
    decreases |y| - j
  {
    if j < |y| && j < limit && y[j] != Semicolon && !IsBreak(y[j]) {
      SemicolonAheadShift(x, y, j + 1, limit);
    }
  }

  /** A kept `&` stays kept in the repaired text: the bytes up to its `;` are copied. */
  lemma KeptStaysKept(s: GoString, i: nat)
    requires i < |s| && s[i] == Amp && Kept(s, i)
    ensures Kept(FixedFrom(s, i), 0)
  {
    var b := KeptSemicolon(s, i + 1, i + 10);
    SegmentCopied(s, i + 1, b + 1);
    var out := FixedFrom(s, i);
    var mid, tail := s[i + 1..b + 1], FixedFrom(s, b + 1);
    assert out == [Amp] + (mid + tail);
    forall k | 1 <= k <= b - i ensures out[k] == s[i + k] {
      assert out[k] == (mid + tail)[k - 1] == mid[k - 1];
    }
    SemicolonFound(out, 1, b - i, 10);
  }

  /** The position of the `;` a successful search finds. */
  lemma {:induction false} KeptSemicolon(s: GoString, a: nat, limit: nat) returns (b: nat)
    requires SemicolonAhead(s, a, limit)
    ensures a <= b < |s| && b < limit && s[b] == Semicolon
    ensures forall k :: a <= k < b ==> !IsBreak(s[k]) && s[k] != Amp
    decreases |s| - a
  {
    if s[a] == Semicolon {
      b := a;
    } else {
      b := KeptSemicolon(s, a + 1, limit);
    }
  }

  /** A `;` ends the entity: it is at `b`, within the nine bytes after the `&`, with no break byte between. */
  predicate ClosesEntity(s: GoString, i: nat, b: int) {
    i < b < |s| && b < i + 10 && s[b] == Semicolon && forall k :: i < k < b ==> !IsBreak(s[k])
  }

  /** An `&` is kept exactly when a `;` closes it before a break byte, the end of the text or the tenth byte. */
  lemma KeptExactly(s: GoString, i: nat)
    requires i < |s|
    ensures Kept(s, i) <==> exists b :: ClosesEntity(s, i, b)
  {
    if Kept(s, i) {
      var b := KeptSemicolon(s, i + 1, i + 10);
      assert ClosesEntity(s, i, b);
    }
    if b :| ClosesEntity(s, i, b) {
      SemicolonFound(s, i + 1, b, i + 10);
    }
  }

  /** Every `&` the repair writes is kept by a second repair. */
  lemma {:induction false} FixedAllKept(s: GoString, i: nat)
    requires i <= |s|
    ensures AllKept(FixedFrom(s, i))
    decreases |s| - i
  {
    if i < |s| {
      FixedAllKept(s, i + 1);
      var p, rest := Piece(s, i), FixedFrom(s, i + 1);
      var out := FixedFrom(s, i);
      assert out == p + rest;
      forall q | 0 <= q < |out| && out[q] == Amp ensures Kept(out, q) {
        if q >= |p| {
          assert out[q] == rest[q - |p|];
          SemicolonAheadShift(p, rest, q - |p| + 1, q - |p| + 10);
        } else if s[i] == Amp && Kept(s, i) {
          KeptStaysKept(s, i);
        } else {
          assert p == EscapedAmp && q == 0;
          SemicolonFound(out, 1, 4, 10);
        }
      }
    }
  }

  /** When every `&` is kept, the repair changes nothing. */
  lemma {:induction false} AllKeptUnchanged(s: GoString, i: nat)
    requires i <= |s| && AllKept(s)
    ensures FixedFrom(s, i) == s[i..]
    decreases |s| - i
  {
    if i < |s| {
      AllKeptUnchanged(s, i + 1);
      assert s[i..] == [s[i]] + s[i + 1..];
    }
  }

  /** Repairing twice is repairing once: every `&` in the output is an entity reference. */
  lemma FixIdempotent(s: GoString)
    ensures Fixed(Fixed(s)) == Fixed(s)
  {
    FixedAllKept(s, 0);
    AllKeptUnchanged(Fixed(s), 0);
  }

  /** `A & B` becomes `A &amp; B`: the `&` is followed by a space. */
  lemma FixBareAmpersand()
    ensures Fixed(Ascii("A & B")) == Ascii("A &amp; B")
  {
    var s := Ascii("A & B");
    assert s == [0x41, 0x20, 0x26, 0x20, 0x42];
    assert !Kept(s, 2);
    SegmentCopied(s, 0, 2);
    SegmentCopied(s, 3, 5);
    assert Ascii("A &amp; B") == s[0..2] + EscapedAmp + s[3..5];
  }

  /** `&amp;` is left as it is. */
  lemma FixEscapedAmpersand()
    ensures Fixed(Ascii("&amp;")) == Ascii("&amp;")
  {
    var s := Ascii("&amp;");
    assert s == EscapedAmp;
    SemicolonFound(s, 1, 4, 10);
    SegmentCopied(s, 1, 5);
  }

  /** `&lt;` is left as it is. */
  lemma FixEntity()
    ensures Fixed(Ascii("&lt;")) == Ascii("&lt;")
  {
    var s := Ascii("&lt;");
    assert s == [0x26, 0x6C, 0x74, 0x3B];
    SemicolonFound(s, 1, 3, 10);
    SegmentCopied(s, 1, 4);
  }

  /** `UnmarshalXML`: repair the ampersands, then decode; the XML decoder is a parameter. */
  method UnmarshalXml<T>(decode: GoString -> Option<T>, data: GoString) returns (r: Option<T>)
    ensures r == decode(Fixed(data))
  {
    var fixed := FixXmlAmpersands(data);
    r := decode(fixed);
  }

  /** Text that has been repaired once decodes the same after another repair. */
  lemma UnmarshalRepaired<T>(decode: GoString -> Option<T>, data: GoString)
    ensures decode(Fixed(Fixed(data))) == decode(Fixed(data))
  {
    FixIdempotent(data);
  }
}
