/**
 What else may be taken for the table: the search takes the first signature, so that a rebuilt ROM
 opens with its own table exactly when nothing in MAKEROM and BOOTCODE passes for one before.
 */
module Decoy {
  import opened Bytes
  import opened Dma
  import opened Layout
  import opened Plan
  import opened Placement
  import opened Open
  import opened Reopen
  import opened Preserve

  // Three entries that are a signature in a ROM of this length.
  predicate PassesAt(img: bytes, k: nat, length: nat) {
    && MakeromAt(img, k) && k + SIGNATURE_SIZE <= |img|
    && IsDmadata(EntryAt(img, k), EntryAt(img, k + 16), EntryAt(img, k + 32), k, length)
  }

  // None of those before o does, the entry that the check code is stored in left aside.
  ghost predicate NoDecoy(img: bytes, o: nat, length: nat) {
    forall k: nat {:trigger PassesAt(img, k, length)} ::
      CODE_AT + ENTRY_SIZE <= k && k + SIGNATURE_SIZE <= o ==> !PassesAt(img, k, length)
  }

  // The entries behind the check code do not make one of it, whatever it is.
  predicate CodeIsHarmless(img: bytes) {
    |img| >= 0x28 && ReadU32(img[0x24..0x28]) != CODE_AT
  }

  // What can be seen before anything is written.
  ghost predicate Clear(img: bytes, o: nat, length: nat) { NoDecoy(img, o, length) && CodeIsHarmless(img) }

  // The same bytes before o, but for the check code.
  ghost predicate SameBelow(img: bytes, after: bytes, o: nat) {
    && o <= |img| && o <= |after|
    && forall k :: 0 <= k < o && !(CODE_AT <= k < CODE_AT + CODE_SIZE) ==> after[k] == img[k]
  }

  lemma SameEntry(img: bytes, after: bytes, o: nat, k: nat)
    requires SameBelow(img, after, o) && CODE_AT + CODE_SIZE <= k && k + ENTRY_SIZE <= o
    ensures EntryAt(after, k) == EntryAt(img, k)
  {
    assert after[k..k + ENTRY_SIZE] == img[k..k + ENTRY_SIZE];
  }

  lemma SamePasses(img: bytes, after: bytes, o: nat, k: nat, length: nat)
    requires SameBelow(img, after, o) && CODE_AT + ENTRY_SIZE <= k && k + SIGNATURE_SIZE <= o
    ensures PassesAt(after, k, length) <==> PassesAt(img, k, length)
  {
    SameEntry(img, after, o, k);
    SameEntry(img, after, o, k + 16);
    SameEntry(img, after, o, k + 32);
  }

  // Nothing at the very beginning is a signature, and nothing that overlaps the one at o.
  lemma NoneAtEdges(img: bytes, o: nat, k: nat)
    requires (MakeromAt(img, o) && k < o < k + SIGNATURE_SIZE) || k == 0
    ensures !SignatureAt(img, k)
  {
    if k != 0 && k % ENTRY_SIZE == 0 {
      TwoEntries(o, k);
    }
  }

  lemma TwoEntries(o: nat, k: nat)
    requires o % ENTRY_SIZE == 0 && k % ENTRY_SIZE == 0 && k < o < k + SIGNATURE_SIZE
    ensures o == k + 16 || o == k + 32
  {
  }

  // With a signature at o, it is the first exactly when neither the check code's entry begins
  // one nor any entry behind that does, and those are the source's.
  lemma FirstExactly(img: bytes, after: bytes, o: nat)
    requires SameBelow(img, after, o) && SignatureAt(after, o) && CODE_AT < o
    ensures NoSignatureBelow(after, o) <==> !SignatureAt(after, CODE_AT) && NoDecoy(img, o, |after|)
  {
    forall k: nat | CODE_AT + ENTRY_SIZE <= k && k + SIGNATURE_SIZE <= o
      ensures SignatureAt(after, k) <==> PassesAt(img, k, |after|)
    {
      SamePasses(img, after, o, k, |after|);
    }
    forall k: nat | k < o && (k == 0 || k + SIGNATURE_SIZE > o)
      ensures !SignatureAt(after, k)
    {
      NoneAtEdges(after, o, k);
    }
    if !SignatureAt(after, CODE_AT) && NoDecoy(img, o, |after|) {
      forall k: nat | k < o
        ensures !SignatureAt(after, k)
      {
        if 0 < k < CODE_AT + ENTRY_SIZE && k != CODE_AT {
          assert k % ENTRY_SIZE != 0;
        }
      }
    }
  }

  lemma CodeStaysHarmless(img: bytes, after: bytes, o: nat)
    requires SameBelow(img, after, o) && 0x28 <= o
    ensures CodeIsHarmless(after) <==> CodeIsHarmless(img)
    ensures CodeIsHarmless(img) ==> !SignatureAt(after, CODE_AT)
  {
    assert after[0x24..0x28] == img[0x24..0x28];
    if SignatureAt(after, CODE_AT) {
      SubSlice(after, 0x20, 0x30, 4, 8);
    }
  }

  // What can be seen of the source can be seen of what is written.
  lemma StaysClear(img: bytes, after: bytes, o: nat, length: nat)
    requires SameBelow(img, after, o) && 0x28 <= o
    ensures NoDecoy(after, o, length) <==> NoDecoy(img, o, length)
    ensures Clear(after, o, length) <==> Clear(img, o, length)
  {
    CodeStaysHarmless(img, after, o);
    forall k: nat | CODE_AT + ENTRY_SIZE <= k && k + SIGNATURE_SIZE <= o
      ensures PassesAt(after, k, length) <==> PassesAt(img, k, length)
    {
      SamePasses(img, after, o, k, length);
    }
  }

  // What is written opens with its table at o exactly when the source, or whatever else the head
  // comes from, has no decoy there and the check code makes none.
  ghost predicate OpensAsSeen(img: bytes, after: bytes, o: nat) {
    && SameBelow(img, after, o)
    && (Opens(after, o) <==> !SignatureAt(after, CODE_AT) && NoDecoy(img, o, |after|))
    && (Clear(img, o, |after|) ==> Opens(after, o))
  }

  lemma SeenBefore(img: bytes, after: bytes, o: nat)
    requires SameBelow(img, after, o) && SignatureAt(after, o) && 0x28 <= o
    requires Opens(after, o) <==> NoSignatureBelow(after, o)
    ensures OpensAsSeen(img, after, o)
  {
    FirstExactly(img, after, o);
    CodeStaysHarmless(img, after, o);
  }

  // The same of a source of the source.
  lemma SeenTwice(img: bytes, between: bytes, after: bytes, o: nat)
    requires SameBelow(img, between, o) && OpensAsSeen(between, after, o) && 0x28 <= o
    ensures OpensAsSeen(img, after, o)
  {
    StaysClear(img, between, o, |after|);
  }

  // A ROM that has no signature before o has no decoy in an output that is no longer.
  lemma NoneInShorter(img: bytes, o: nat, length: nat)
    requires NoSignatureBelow(img, o) && length <= |img|
    ensures NoDecoy(img, o, length)
  {
    forall k: nat | k + SIGNATURE_SIZE <= o
      ensures !PassesAt(img, k, length)
    {
      assert !SignatureAt(img, k);
    }
  }

  // The head of a finished image is MAKEROM and BOOTCODE, as they are copied, with the check code.
  lemma HeadFinished(p: Plan, pad: Pad, buffer: bytes, code: u64)
    requires Sound(p, pad, buffer) && HeadSurvives(p)
    ensures p.jobs[0].Put? && p.jobs[1].Put? && CODE_AT + CODE_SIZE <= |buffer|
    ensures |p.jobs[0].data + p.jobs[1].data| == p.entries[2].vromStart
    ensures SameBelow(p.jobs[0].data + p.jobs[1].data, Finished(p, pad, buffer, code), p.entries[2].vromStart)
  {
    var img, a, b := Finished(p, pad, buffer, code), p.jobs[0].data, p.jobs[1].data;
    RowOfMakerom(p);
    BootcodeFollows(p);
    MakeromFinished(p, pad, buffer, code);
    OtherFileFinished(p, pad, buffer, code, 1);
    HeadOf(img, a, b, code);
  }

  lemma BootcodeFollows(p: Plan)
    requires HeadCopied(p) && Unwrapped(p) && HeadSurvives(p) && p.Start(0) == 0
    ensures p.Start(1) == p.entries[0].vromEnd && p.jobs[1].Put? && p.Length(1) == Span(p.entries[1]) > 0
  {
    if p.pack == Dense {
      DenseHead(p);
    }
  }

  lemma HeadOf(img: bytes, a: bytes, b: bytes, code: u64)
    requires CODE_AT + CODE_SIZE <= |a| && |a| + |b| <= |img|
    requires img[..|a|] == Splice(a, CODE_AT, BigEndian64(code)) && img[|a|..|a| + |b|] == b
    ensures SameBelow(a + b, img, |a| + |b|)
  {
    forall k | 0 <= k < |a| + |b| && !(CODE_AT <= k < CODE_AT + CODE_SIZE)
      ensures img[k] == (a + b)[k]
    {
      if k < |a| {
        assert img[k] == img[..|a|][k];
      } else {
        assert img[k] == img[|a|..|a| + |b|][k - |a|];
      }
    }
  }
}
