/** The commit footer and the backward scan for the newest valid commit (memvid/src/footer.rs). */
module Footer {
  import opened Basics
  import opened LittleEndian

  /** The bytes of "MV2FOOT!". */
  const MAGIC: seq<byte> := [77, 86, 50, 70, 79, 79, 84, 33]

  const FOOTER_SIZE: nat := 56

  type Hash32 = h: seq<byte> | |h| == 32 witness seq(32, _ => 0)

  datatype CommitFooter = CommitFooter(tocLen: u64, tocHash: Hash32, generation: u64)

  function Encode(f: CommitFooter): (bs: seq<byte>)
    ensures |bs| == FOOTER_SIZE
  {
    MAGIC + ToLe(f.tocLen, 8) + f.tocHash + ToLe(f.generation, 8)
  }

  function ReadU64(bs: seq<byte>): (n: u64)
    requires |bs| == 8
  {
    FromLeBounded(bs);
    Widths();
    FromLe(bs)
  }

  function Decode(bs: seq<byte>): Option<CommitFooter> {
    if |bs| != FOOTER_SIZE then None
    else if bs[..8] != MAGIC then None
    else Some(CommitFooter(ReadU64(bs[8..16]), bs[16..48], ReadU64(bs[48..])))
  }

  predicate HashMatches(f: CommitFooter, toc: seq<byte>, hash: seq<byte> -> Hash32) {
    hash(toc) == f.tocHash
  }

  lemma Layout(a: seq<byte>, b: seq<byte>, c: seq<byte>, d: seq<byte>)
    requires |a| == 8 && |b| == 8 && |c| == 32 && |d| == 8
    ensures var bs := a + b + c + d; bs[..8] == a && bs[8..16] == b && bs[16..48] == c && bs[48..] == d
  {
  }

  lemma DecodeEncode(f: CommitFooter)
    ensures Decode(Encode(f)) == Some(f)
  {
    assert |MAGIC| == 8;
    hide ToLe, FromLe, Pow256, MAGIC;
    Widths();
    FromToLe(f.tocLen, 8);
    FromToLe(f.generation, 8);
    Layout(MAGIC, ToLe(f.tocLen, 8), f.tocHash, ToLe(f.generation, 8));
  }

  /** A footer has one byte form: only its encoding decodes to it. */
  lemma EncodeDecode(bs: seq<byte>)
    ensures Decode(bs).Some? ==> Encode(Decode(bs).value) == bs
    ensures Decode(bs).Some? <==> |bs| == FOOTER_SIZE && bs[..8] == MAGIC
  {
    hide ToLe, FromLe, Pow256, MAGIC;
    if Decode(bs).Some? {
      ToFromLe(bs[8..16]);
      ToFromLe(bs[48..]);
      assert bs == bs[..8] + bs[8..16] + bs[16..48] + bs[48..];
    }
  }

  /** The fields of an encoded footer, by their positions. */
  lemma FooterLayout(f: CommitFooter)
    ensures var bs := Encode(f);
      && bs[..8] == [77, 86, 50, 70, 79, 79, 84, 33]
      && FromLe(bs[8..16]) == f.tocLen && bs[16..48] == f.tocHash && FromLe(bs[48..56]) == f.generation
  {
    assert |MAGIC| == 8;
    hide ToLe, FromLe, Pow256;
    Widths();
    FromToLe(f.tocLen, 8);
    FromToLe(f.generation, 8);
    Layout(MAGIC, ToLe(f.tocLen, 8), f.tocHash, ToLe(f.generation, 8));
    assert Encode(f)[48..56] == Encode(f)[48..];
  }

  function Overwritten(buf: seq<byte>, start: nat, src: seq<byte>): (r: seq<byte>)
    requires start + |src| <= |buf|
    ensures |r| == |buf|
  {
    buf[..start] + src + buf[start + |src|..]
  }

  lemma OverwriteOne(buf: seq<byte>, start: nat, src: seq<byte>, i: nat)
    requires start + |src| <= |buf| && i < |src|
    ensures Overwritten(buf, start, src[..i])[start + i := src[i]] == Overwritten(buf, start, src[..i + 1])
  {
  }

  /** Copies src into the buffer from position start on. */
  method CopyInto(buf: array<byte>, start: nat, src: seq<byte>)
    requires start + |src| <= buf.Length
    modifies buf
    ensures buf[..] == Overwritten(old(buf[..]), start, src)
  {
    for i := 0 to |src|
      invariant buf[..] == Overwritten(old(buf[..]), start, src[..i])
    {
      OverwriteOne(old(buf[..]), start, src, i);
      buf[start + i] := src[i];
    }
    assert src[..|src|] == src;
  }

  /** `CommitFooter::encode` fills its 56-byte buffer field by field. */
  method EncodeBuffer(f: CommitFooter) returns (buf: array<byte>)
    ensures fresh(buf) && buf[..] == Encode(f)
  {
    assert |MAGIC| == 8;
    hide ToLe, MAGIC, Overwritten;
    buf := new byte[FOOTER_SIZE](_ => 0);
    ghost var zeros := buf[..];
    CopyInto(buf, 0, MAGIC);
    CopyInto(buf, 8, ToLe(f.tocLen, 8));
    CopyInto(buf, 16, f.tocHash);
    CopyInto(buf, 48, ToLe(f.generation, 8));
    FieldsFill(zeros, MAGIC, ToLe(f.tocLen, 8), f.tocHash, ToLe(f.generation, 8));
  }

  lemma FieldsFill(zeros: seq<byte>, a: seq<byte>, b: seq<byte>, c: seq<byte>, d: seq<byte>)
    requires |zeros| == FOOTER_SIZE && |a| == 8 && |b| == 8 && |c| == 32 && |d| == 8
    ensures Overwritten(Overwritten(Overwritten(Overwritten(zeros, 0, a), 8, b), 16, c), 48, d) == a + b + c + d
  {
    var z1 := Overwritten(zeros, 0, a);
    assert z1[..8] == a;
    var z2 := Overwritten(z1, 8, b);
    assert z2[..16] == a + b;
    var z3 := Overwritten(z2, 16, c);
    assert z3[..48] == a + b + c;
  }

  // ---------- What a valid commit is ----------

  datatype FooterSlice = FooterSlice(footerOffset: nat, tocOffset: nat, footer: CommitFooter, toc: seq<byte>)

  /** A footer starts at pos, announces a non-empty table of contents that ends at pos, and carries its hash. */
  ghost predicate ValidAt(bytes: seq<byte>, pos: int, hash: seq<byte> -> Hash32) {
    && 0 <= pos && pos + FOOTER_SIZE <= |bytes|
    && Decode(bytes[pos..pos + FOOTER_SIZE]).Some?
    && var f := Decode(bytes[pos..pos + FOOTER_SIZE]).value;
       0 < f.tocLen <= pos && HashMatches(f, bytes[pos - f.tocLen..pos], hash)
  }

  ghost function SliceAt(bytes: seq<byte>, pos: nat, hash: seq<byte> -> Hash32): FooterSlice
    requires ValidAt(bytes, pos, hash)
  {
    var f := Decode(bytes[pos..pos + FOOTER_SIZE]).value;
    FooterSlice(pos, pos - f.tocLen, f, bytes[pos - f.tocLen..pos])
  }

  /** The specification of the scan: the GREATEST valid position, or nothing if there is none. */
  ghost predicate IsNewest(bytes: seq<byte>, r: Option<FooterSlice>, hash: seq<byte> -> Hash32) {
    match r
    case None => forall pos :: 0 <= pos < |bytes| ==> !ValidAt(bytes, pos, hash)
    case Some(slice) =>
      && ValidAt(bytes, slice.footerOffset, hash)
      && slice == SliceAt(bytes, slice.footerOffset, hash)
      && forall pos :: slice.footerOffset < pos < |bytes| ==> !ValidAt(bytes, pos, hash)
  }

  /** The same in bytes: the magic at pos, then the length of a table of contents that is not empty and ends at pos,
      then its hash. */
  ghost predicate IsCommitAt(bytes: seq<byte>, pos: nat, hash: seq<byte> -> Hash32) {
    && pos + 56 <= |bytes|
    && bytes[pos..pos + 8] == [77, 86, 50, 70, 79, 79, 84, 33]
    && var length := FromLe(bytes[pos + 8..pos + 16]);
       0 < length <= pos && hash(bytes[pos - length..pos]) == bytes[pos + 16..pos + 48]
  }

  lemma ValidIsCommit(bytes: seq<byte>, pos: nat, hash: seq<byte> -> Hash32)
    ensures ValidAt(bytes, pos, hash) <==> IsCommitAt(bytes, pos, hash)
    ensures ValidAt(bytes, pos, hash) ==>
      var slice := SliceAt(bytes, pos, hash);
      && slice.footerOffset == pos && slice.tocOffset == pos - FromLe(bytes[pos + 8..pos + 16])
      && slice.toc == bytes[slice.tocOffset..pos]
      && slice.footer == CommitFooter(pos - slice.tocOffset, bytes[pos + 16..pos + 48], slice.footer.generation)
      && slice.footer.generation == FromLe(bytes[pos + 48..pos + 56])
  {
    hide FromLe;
    if pos + 56 <= |bytes| {
      var candidate := bytes[pos..pos + 56];
      PartOfPart(bytes, pos, pos + 56, 0, 8);
      PartOfPart(bytes, pos, pos + 56, 8, 16);
      PartOfPart(bytes, pos, pos + 56, 16, 48);
      PartOfPart(bytes, pos, pos + 56, 48, 56);
      assert candidate[..8] == candidate[0..8] && candidate[48..] == candidate[48..56];
    }
  }

  lemma NewestIsUnique(bytes: seq<byte>, r: Option<FooterSlice>, s: Option<FooterSlice>, hash: seq<byte> -> Hash32)
    requires IsNewest(bytes, r, hash) && IsNewest(bytes, s, hash)
    ensures r == s
  {
    if r.Some? && s.Some? {
      assert ValidAt(bytes, r.value.footerOffset, hash) && ValidAt(bytes, s.value.footerOffset, hash);
    }
  }

  // ---------- The scan ----------

  /** memrchr: the last position of b before end. */
  method LastIndexOf(b: byte, bytes: seq<byte>, end: nat) returns (r: Option<nat>)
    requires end <= |bytes|
    ensures r.None? ==> forall i :: 0 <= i < end ==> bytes[i] != b
    ensures r.Some? ==> r.value < end && bytes[r.value] == b && forall i :: r.value < i < end ==> bytes[i] != b
  {
    var i: nat := end;
    while i > 0
      invariant 0 <= i <= end
      invariant forall j :: i <= j < end ==> bytes[j] != b
    {
      i := i - 1;
      if bytes[i] == b {
        return Some(i);
      }
    }
    return None;
  }

  ghost predicate MagicAt(bytes: seq<byte>, pos: int) {
    0 <= pos <= |bytes| - 8 && bytes[pos..pos + 8] == MAGIC
  }

  lemma ValidStartsWithMagic(bytes: seq<byte>, pos: int, hash: seq<byte> -> Hash32)
    requires ValidAt(bytes, pos, hash)
    ensures MagicAt(bytes, pos) && bytes[pos] == MAGIC[0]
  {
    var candidate := bytes[pos..pos + FOOTER_SIZE];
    assert candidate[..8] == bytes[pos..pos + 8];
    assert bytes[pos] == bytes[pos..pos + 8][0];
  }

  method FindLastValidFooter(bytes: seq<byte>, hash: seq<byte> -> Hash32) returns (r: Option<FooterSlice>)
    ensures IsNewest(bytes, r, hash)
    ensures r.None? ==> forall pos: nat :: !IsCommitAt(bytes, pos, hash)
    ensures r.Some? ==>
      var pos := r.value.footerOffset;
      && IsCommitAt(bytes, pos, hash) && (forall later: nat :: later > pos ==> !IsCommitAt(bytes, later, hash))
      && r.value.tocOffset == pos - FromLe(bytes[pos + 8..pos + 16])
      && r.value.toc == bytes[r.value.tocOffset..pos]
      && r.value.footer.tocHash == bytes[pos + 16..pos + 48]
      && r.value.footer.tocLen == pos - r.value.tocOffset
      && r.value.footer.generation == FromLe(bytes[pos + 48..pos + 56])
  {
    r := Scan(bytes, hash);
    hide ValidAt, SliceAt, IsCommitAt, FromLe;
    forall pos: nat ensures ValidAt(bytes, pos, hash) <==> IsCommitAt(bytes, pos, hash) {
      ValidIsCommit(bytes, pos, hash);
    }
    if r.Some? {
      ValidIsCommit(bytes, r.value.footerOffset, hash);
    }
    forall pos: nat | pos >= |bytes| ensures !IsCommitAt(bytes, pos, hash) {
      BeyondTheEnd(bytes, pos, hash);
    }
  }

  lemma BeyondTheEnd(bytes: seq<byte>, pos: nat, hash: seq<byte> -> Hash32)
    ensures IsCommitAt(bytes, pos, hash) ==> pos < |bytes|
  {
  }

  /** The backward scan. */
  method Scan(bytes: seq<byte>, hash: seq<byte> -> Hash32) returns (r: Option<FooterSlice>)
    ensures IsNewest(bytes, r, hash)
  {
    if |bytes| < FOOTER_SIZE {
      return None;
    }
    var totalLen := |bytes|;
    var searchEnd: nat := |bytes|;
    while true
      invariant 0 <= searchEnd <= totalLen
      invariant forall pos :: searchEnd <= pos < totalLen ==> !ValidAt(bytes, pos, hash)
      decreases searchEnd
    {
      var found := LastIndexOf(MAGIC[0], bytes, searchEnd);
      forall pos | (if found.Some? then found.value + 1 else 0) <= pos < searchEnd
        ensures !ValidAt(bytes, pos, hash)
      {
        if ValidAt(bytes, pos, hash) {
          ValidStartsWithMagic(bytes, pos, hash);
        }
      }
      if found.None? {
        break;
      }
      var pos := found.value;
      if pos + FOOTER_SIZE > totalLen {
        if pos == 0 {
          break;
        }
        searchEnd := pos;
        continue;
      }
      var candidate := Decode(bytes[pos..pos + FOOTER_SIZE]);
      if candidate.Some? {
        var footer := candidate.value;
        var tocEnd, tocLen := pos, footer.tocLen;
        if tocLen == 0 || tocLen > tocEnd {
          searchEnd := pos;
          continue;
        }
        var tocOffset := tocEnd - tocLen;
        var toc := bytes[tocOffset..tocEnd];
        if !HashMatches(footer, toc, hash) {
          searchEnd := pos;
          continue;
        }
        return Some(FooterSlice(pos, tocOffset, footer, toc));
      }
      if pos == 0 {
        break;
      }
      searchEnd := pos;
    }
    return None;
  }

  // ---------- Commits appended to a file ----------

  /** The footer that commits a table of contents. */
  function FooterFor(toc: seq<byte>, generation: u64, hash: seq<byte> -> Hash32): CommitFooter
    requires |toc| < 0x1_0000_0000_0000_0000
  {
    CommitFooter(|toc|, hash(toc), generation)
  }

  function Commit(toc: seq<byte>, generation: u64, hash: seq<byte> -> Hash32): (bs: seq<byte>)
    requires |toc| < 0x1_0000_0000_0000_0000
    ensures |bs| == |toc| + FOOTER_SIZE
  {
    toc + Encode(FooterFor(toc, generation, hash))
  }

  /** Whatever the file held, a complete commit at its end is the one the scan finds. */
  lemma AppendedCommitIsFound(prefix: seq<byte>, toc: seq<byte>, generation: u64, hash: seq<byte> -> Hash32, r: Option<FooterSlice>)
    requires 0 < |toc| < 0x1_0000_0000_0000_0000
    requires IsNewest(prefix + Commit(toc, generation, hash), r, hash)
    ensures r == Some(FooterSlice(|prefix| + |toc|, |prefix|, FooterFor(toc, generation, hash), toc))
  {
    var f := FooterFor(toc, generation, hash);
    var bytes := prefix + Commit(toc, generation, hash);
    var pos := |prefix| + |toc|;
    assert bytes[pos..pos + FOOTER_SIZE] == Encode(f);
    DecodeEncode(f);
    assert bytes[pos - |toc|..pos] == toc;
    NewestIsUnique(bytes, r, Some(SliceAt(bytes, pos, hash)), hash);
  }

  /** Validity at a position depends only on the bytes up to the end of the footer there. */
  lemma ValidityIsLocal(bytes: seq<byte>, tail: seq<byte>, pos: int, hash: seq<byte> -> Hash32)
    requires pos + FOOTER_SIZE <= |bytes|
    ensures ValidAt(bytes + tail, pos, hash) <==> ValidAt(bytes, pos, hash)
    ensures ValidAt(bytes, pos, hash) ==> SliceAt(bytes + tail, pos, hash) == SliceAt(bytes, pos, hash)
  {
    if pos >= 0 {
      assert (bytes + tail)[pos..pos + FOOTER_SIZE] == bytes[pos..pos + FOOTER_SIZE];
      forall k | 0 <= k <= pos ensures (bytes + tail)[k..pos] == bytes[k..pos] {
      }
    }
  }

  /** Appending a tail - a torn commit, say - leaves the scan's answer alone EXACTLY when no valid footer
      ends inside the tail. */
  lemma TailKeepsAnswer(bytes: seq<byte>, tail: seq<byte>, hash: seq<byte> -> Hash32,
                        before: Option<FooterSlice>, after: Option<FooterSlice>)
    requires IsNewest(bytes, before, hash) && IsNewest(bytes + tail, after, hash)
    ensures after == before <==> forall pos :: |bytes| - FOOTER_SIZE < pos < |bytes| + |tail| ==> !ValidAt(bytes + tail, pos, hash)
  {
    forall pos | pos + FOOTER_SIZE <= |bytes|
      ensures ValidAt(bytes + tail, pos, hash) <==> ValidAt(bytes, pos, hash)
      ensures ValidAt(bytes, pos, hash) ==> SliceAt(bytes + tail, pos, hash) == SliceAt(bytes, pos, hash)
    {
      ValidityIsLocal(bytes, tail, pos, hash);
    }
    if forall pos :: |bytes| - FOOTER_SIZE < pos < |bytes| + |tail| ==> !ValidAt(bytes + tail, pos, hash) {
      NewestIsUnique(bytes + tail, before, after, hash);
    }
  }

  /** A tail in which the magic never starts (nor across its seam) leaves the previous commit found. */
  lemma MagicFreeTail(bytes: seq<byte>, tail: seq<byte>, hash: seq<byte> -> Hash32,
                      before: Option<FooterSlice>, after: Option<FooterSlice>)
    requires IsNewest(bytes, before, hash) && IsNewest(bytes + tail, after, hash)
    requires forall pos :: |bytes| - FOOTER_SIZE < pos ==> !MagicAt(bytes + tail, pos)
    ensures after == before
  {
    var all := bytes + tail;
    forall pos | |bytes| - FOOTER_SIZE < pos < |all| ensures !ValidAt(all, pos, hash) {
      if ValidAt(all, pos, hash) {
        ValidStartsWithMagic(all, pos, hash);
        assert false;
      }
    }
    TailKeepsAnswer(bytes, tail, hash, before, after);
  }
}
