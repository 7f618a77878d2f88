/** The two passes of `parse_string`: the decoding pass fits in the space the scanning pass computes. */
module JsonSpace {
  import opened JsonText
  import opened Utf

  /** The escape sequences that the scanning pass, started at `i`, counts before `p`. */
  function Skipped(c: string, i: nat, p: nat): (n: nat)
    requires p <= |c|
    decreases p - i
  {
    if i >= p then 0
    else if c[i] == '\\' then 1 + Skipped(c, i + 2, p)
    else Skipped(c, i + 1, p)
  }

  /** The two passes may disagree on where escapes start, but the scan counts no two adjacent characters. */
  lemma {:induction false} SkippedStep(c: string, i: nat, p: nat)
    requires p < |c|
    ensures Skipped(c, i, p) <= Skipped(c, i, p + 1) <= Skipped(c, i, p) + 1
    ensures c[p] != '\\' ==> Skipped(c, i, p + 1) == Skipped(c, i, p)
    ensures p + 2 <= |c| ==> Skipped(c, i, p + 2) <= Skipped(c, i, p) + 1
    decreases p - i
  {
    if i < p {
      if c[i] == '\\' {
        SkippedStep(c, i + 2, p);
      } else {
        SkippedStep(c, i + 1, p);
      }
    } else if p + 2 <= |c| {
      assert Skipped(c, i + 1, p + 2) <= 1;
    }
  }

  lemma {:induction false} SkippedPairs(c: string, i: nat, p: nat, k: nat)
    requires p + 2 * k <= |c|
    ensures Skipped(c, i, p + 2 * k) <= Skipped(c, i, p) + k
    decreases k
  {
    if k > 0 {
      SkippedPairs(c, i, p + 2, k - 1);
      SkippedStep(c, i, p);
    }
  }

  function Min(a: nat, b: nat): nat {
    if a < b then a else b
  }

  /** The space left for what is still to be decoded from `p` on, when the scan started at `i` and ended at `end`:
      characters not yet consumed, less the escapes counted among them. */
  function Room(c: string, i: nat, p: nat, end: nat): int
    requires end < |c|
  {
    (end + 1 - p) - (Skipped(c, i, end) - Skipped(c, i, Min(p, end)))
  }

  /** One decoding step uses no more room than it frees. */
  lemma RoomAfterEscape(c: string, i: nat, p: nat, end: nat)
    requires p < end < |c|
    ensures c[p] != '\\' ==> Room(c, i, p + 1, end) + 1 <= Room(c, i, p, end)
    ensures Room(c, i, p + 2, end) + 1 <= Room(c, i, p, end)
    ensures p + 6 <= end ==> Room(c, i, p + 6, end) + 3 <= Room(c, i, p, end)
    ensures p + 12 <= end ==> Room(c, i, p + 12, end) + 4 <= Room(c, i, p, end)
  {
    SkippedStep(c, i, p);
    if p + 6 <= end { SkippedPairs(c, i, p, 3); }
    if p + 12 <= end { SkippedPairs(c, i, p, 6); }
  }

  /** Whatever the text, malformed `\u` digits included: what is decoded from `p` fits in the room that is left. */
  lemma {:induction false} DecodedFits(c: string, i: nat, p: nat, end: nat)
    requires end < |c| && p <= end + 1
    ensures Decode(c, p, end).Decoded? ==> |Decode(c, p, end).text| <= Room(c, i, p, end)
    decreases end + 1 - p
  {
    hide Skipped, Utf8Bytes, Utf16Literal;
    if p >= end {
      RoomIsLeft(c, i, p, end);
    } else {
      RoomAfterEscape(c, i, p, end);
      if c[p] != '\\' {
        DecodedFits(c, i, p + 1, end);
      } else if c[p + 1] == 'u' {
        var l := Utf16Literal(c, p, end);
        if l.Some? {
          DecodedFits(c, i, p + l.value.length, end);
        }
      } else {
        DecodedFits(c, i, p + 2, end);
      }
    }
  }

  /** There is always room for the terminator. */
  lemma {:induction false} RoomIsLeft(c: string, i: nat, p: nat, end: nat)
    requires p <= end + 1 && end < |c|
    ensures Room(c, i, p, end) >= 0
    decreases end + 1 - p
  {
    if p < end {
      RoomIsLeft(c, i, p + 1, end);
      SkippedStep(c, i, p);
    }
  }

  /** The block `parse_string` allocates for the string that opens at `o` and closes at `end` holds the decoded
      text and its terminator. */
  lemma AllocationSuffices(c: string, o: nat, end: nat)
    requires o < end < |c|
    ensures Skipped(c, o + 1, end) <= end - o
    ensures Decode(c, o + 1, end).Decoded? ==>
              |Decode(c, o + 1, end).text| + 1 <= (end - o - Skipped(c, o + 1, end)) + 1
  {
    hide Decode;
    DecodedFits(c, o + 1, o + 1, end);
    SkippedAtMost(c, o + 1, end);
  }

  lemma {:induction false} SkippedAtMost(c: string, i: nat, p: nat)
    requires p <= |c|
    ensures Skipped(c, i, p) <= if i < p then p - i else 0
    decreases p - i
  {
    if i < p {
      SkippedAtMost(c, i + 1, p);
      SkippedAtMost(c, i + 2, p);
    }
  }
}
