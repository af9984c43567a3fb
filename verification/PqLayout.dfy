/** Where everything stands in the bytes of a compressed vector index, and how large it may grow (memvid/src/vec_pq.rs). */
module PqLayout {
  import opened Basics
  import opened LittleEndian
  import opened PqCodec

  // ---------- The size limit in documents ----------

  /** What the builder makes: 96 codebooks of 1024 numbers, and 96 codes a document. */
  ghost predicate IsBuilt(x: Index) {
    && |x.codebooks| == 96
    && (forall i :: 0 <= i < |x.codebooks| ==> |x.codebooks[i]| == 1024)
    && (forall i :: 0 <= i < |x.documents| ==> |x.documents[i].codes| == 96)
  }

  lemma {:induction false} SameSizes<T>(encode: T -> seq<byte>, xs: seq<T>, size: nat)
    requires forall i :: 0 <= i < |xs| ==> |encode(xs[i])| == size
    ensures |EncodeAll(encode, xs)| == |xs| * size
  {
    if xs != [] {
      SameSizes(encode, xs[1..], size);
      assert |xs| * size == size + |xs[1..]| * size;
    }
  }

  lemma BuiltSize(x: Index)
    requires IsBuilt(x)
    ensures |EncodeIndex(x)| == 394004 + 112 * |x.documents|
  {
    forall i | 0 <= i < |x.codebooks| ensures |EncodeCodebook(x.codebooks[i])| == 4104 {
      SameSizes(EncodeFloat, x.codebooks[i], 4);
    }
    forall i | 0 <= i < |x.documents| ensures |EncodeDocument(x.documents[i])| == 112 {
      SameSizes(EncodeByte, x.documents[i].codes, 1);
    }
    SameSizes(EncodeCodebook, x.codebooks, 4104);
    SameSizes(EncodeDocument, x.documents, 112);
  }

  // ---------- The layout in bytes ----------

  lemma {:induction false} ElementAt<T>(encode: T -> seq<byte>, xs: seq<T>, size: nat, i: nat)
    requires forall k :: 0 <= k < |xs| ==> |encode(xs[k])| == size
    requires i < |xs|
    ensures i * size + size <= |EncodeAll(encode, xs)|
    ensures EncodeAll(encode, xs)[i * size..i * size + size] == encode(xs[i])
  {
    var head, rest := encode(xs[0]), EncodeAll(encode, xs[1..]);
    assert EncodeAll(encode, xs) == head + rest;
    hide EncodeAll;
    if i > 0 {
      ElementAt(encode, xs[1..], size, i - 1);
      assert i * size == (i - 1) * size + size;
      BehindHead(head, rest, (i - 1) * size, size);
    }
  }

  lemma BehindHead(head: seq<byte>, rest: seq<byte>, offset: nat, size: nat)
    requires offset + size <= |rest|
    ensures (head + rest)[|head| + offset..|head| + offset + size] == rest[offset..offset + size]
  {
    var a, b := (head + rest)[|head| + offset..|head| + offset + size], rest[offset..offset + size];
    forall i | 0 <= i < size ensures a[i] == b[i] {
    }
  }

  /** n stands in w bytes at this offset. */
  ghost predicate HasNumber(bytes: seq<byte>, offset: nat, w: nat, n: nat) {
    offset + w <= |bytes| && FromLe(bytes[offset..offset + w]) == n
  }

  lemma NumberIsThere(n: nat, w: nat, before: seq<byte>, after: seq<byte>)
    requires n < Pow256(w)
    ensures HasNumber(before + (ToLe(n, w) + after), |before|, w, n)
  {
    FromToLe(n, w);
    var bytes := before + (ToLe(n, w) + after);
    assert bytes[|before|..|before| + w] == ToLe(n, w);
  }

  /** What holds in a part of the bytes holds in the whole, further on. */
  lemma NumberInPart(bytes: seq<byte>, start: nat, part: seq<byte>, offset: nat, w: nat, n: nat)
    requires start + |part| <= |bytes| && bytes[start..start + |part|] == part && HasNumber(part, offset, w, n)
    ensures HasNumber(bytes, start + offset, w, n)
  {
    PartOfPart(bytes, start, start + |part|, offset, offset + w);
  }

  lemma FloatPart(c: Codebook, k: nat)
    requires k < |c|
    ensures var bytes := EncodeCodebook(c);
      |bytes| == 8 + 4 * |c| && bytes[8 + 4 * k..8 + 4 * k + 4] == EncodeFloat(c[k])
  {
    hide ToLe, EncodeAll, EncodeList;
    SameSizes(EncodeFloat, c, 4);
    ElementAt(EncodeFloat, c, 4, k);
    ListBody(EncodeFloat, c);
    PartOfPart(EncodeCodebook(c), 8, 8 + 4 * |c|, 4 * k, 4 * k + 4);
  }

  lemma ListBody<T>(encode: T -> seq<byte>, xs: seq<T>)
    ensures var bytes, all := EncodeList(encode, xs), EncodeAll(encode, xs);
      |bytes| == 8 + |all| && bytes[8..8 + |all|] == all
  {
  }

  lemma CountIsThere<T>(encode: T -> seq<byte>, xs: seq<T>)
    requires |xs| < 0x1_0000_0000
    ensures HasNumber(EncodeList(encode, xs), 0, 8, |xs|)
  {
    hide ToLe, EncodeAll, HasNumber;
    Widths();
    var all := EncodeAll(encode, xs);
    NumberIsThere(|xs|, 8, [], all);
    assert [] + (ToLe(|xs|, 8) + all) == ToLe(|xs|, 8) + all;
  }

  lemma FloatIsThere(c: Codebook, k: nat)
    requires k < |c| < 0x1_0000_0000
    ensures |EncodeCodebook(c)| == 8 + 4 * |c|
    ensures HasNumber(EncodeCodebook(c), 0, 8, |c|) && HasNumber(EncodeCodebook(c), 8 + 4 * k, 4, c[k])
  {
    hide ToLe, EncodeAll, EncodeList, HasNumber;
    Widths();
    CountIsThere(EncodeFloat, c);
    FloatPart(c, k);
    NumberIsThere(c[k], 4, [], []);
    assert [] + (ToLe(c[k], 4) + []) == EncodeFloat(c[k]);
    NumberInPart(EncodeCodebook(c), 8 + 4 * k, EncodeFloat(c[k]), 0, 4, c[k]);
  }

  lemma DocumentParts(d: Document)
    requires |d.codes| == 96
    ensures EncodeDocument(d) == ToLe(d.frameId, 8) + (ToLe(96, 8) + d.codes)
  {
    BytesAreThemselves(d.codes);
  }

  lemma DocumentIsThere(d: Document)
    requires |d.codes| == 96
    ensures var bytes := EncodeDocument(d);
      && |bytes| == 112 && HasNumber(bytes, 0, 8, d.frameId) && HasNumber(bytes, 8, 8, 96) && bytes[16..112] == d.codes
  {
    hide ToLe, EncodeDocument, HasNumber, Pow256;
    Widths();
    DocumentParts(d);
    var a, b := ToLe(d.frameId, 8), ToLe(96, 8);
    NumberIsThere(d.frameId, 8, [], b + d.codes);
    NothingBefore(a + (b + d.codes));
    NumberIsThere(96, 8, a, d.codes);
    BehindTwo(a, b, d.codes);
  }

  lemma NothingBefore(bs: seq<byte>)
    ensures [] + bs == bs
  {
  }

  lemma BehindTwo(a: seq<byte>, b: seq<byte>, c: seq<byte>)
    ensures var all := a + (b + c); all[|a| + |b|..|a| + |b| + |c|] == c
  {
  }

  lemma {:induction false} BytesAreThemselves(bs: seq<byte>)
    ensures EncodeAll(EncodeByte, bs) == bs
  {
    if bs != [] {
      BytesAreThemselves(bs[1..]);
      assert bs == [bs[0]] + bs[1..];
    }
  }

  /** Where everything stands in the bytes of an index that was built: the number of codebooks; each codebook, the
      number of its floats and then these; the dimension; the number of documents; and each document, its frame, the
      number of its codes and then these. */
  ghost predicate HasLayout(bytes: seq<byte>, x: Index)
    requires IsBuilt(x)
  {
    && |bytes| == 394004 + 112 * |x.documents|
    && HasNumber(bytes, 0, 8, 96)
    && (forall c, k :: 0 <= c < 96 && 0 <= k < 1024 ==> CodebookIsAt(bytes, x, c, k))
    && HasNumber(bytes, 393992, 4, x.dimension)
    && HasNumber(bytes, 393996, 8, |x.documents|)
    && (forall i :: 0 <= i < |x.documents| ==> DocumentIsAt(bytes, x, i))
  }

  ghost predicate CodebookIsAt(bytes: seq<byte>, x: Index, c: nat, k: nat)
    requires IsBuilt(x) && c < 96 && k < 1024
  {
    var start := 8 + 4104 * c;
    HasNumber(bytes, start, 8, 1024) && HasNumber(bytes, start + 8 + 4 * k, 4, x.codebooks[c][k])
  }

  ghost predicate DocumentIsAt(bytes: seq<byte>, x: Index, i: nat)
    requires IsBuilt(x) && i < |x.documents|
  {
    var start := 394004 + 112 * i;
    && start + 112 <= |bytes|
    && HasNumber(bytes, start, 8, x.documents[i].frameId) && HasNumber(bytes, start + 8, 8, 96)
    && bytes[start + 16..start + 112] == x.documents[i].codes
  }

  /** The encoding is the codebooks, the dimension and the documents, one after the other. */
  lemma Parts(x: Index) returns (codebooks: seq<byte>, documents: seq<byte>)
    requires IsBuilt(x)
    ensures codebooks == EncodeAll(EncodeCodebook, x.codebooks) && |codebooks| == 393984
    ensures documents == EncodeAll(EncodeDocument, x.documents) && |documents| == 112 * |x.documents|
    ensures var bytes := EncodeIndex(x);
      && |bytes| == 394004 + 112 * |x.documents|
      && bytes == ToLe(96, 8) + codebooks + ToLe(x.dimension, 4) + ToLe(|x.documents|, 8) + documents
      && bytes[8..393992] == codebooks && bytes[394004..] == documents
  {
    hide ToLe, EncodeAll, EncodeCodebook, EncodeDocument;
    forall i | 0 <= i < |x.codebooks| ensures |EncodeCodebook(x.codebooks[i])| == 4104 {
      FloatIsThere(x.codebooks[i], 0);
    }
    forall i | 0 <= i < |x.documents| ensures |EncodeDocument(x.documents[i])| == 112 {
      DocumentIsThere(x.documents[i]);
    }
    SameSizes(EncodeCodebook, x.codebooks, 4104);
    SameSizes(EncodeDocument, x.documents, 112);
    codebooks, documents := EncodeAll(EncodeCodebook, x.codebooks), EncodeAll(EncodeDocument, x.documents);
    InPieces(ToLe(96, 8), codebooks, ToLe(x.dimension, 4), ToLe(|x.documents|, 8), documents);
  }

  lemma InPieces(a: seq<byte>, b: seq<byte>, c: seq<byte>, d: seq<byte>, e: seq<byte>)
    ensures var all := a + b + c + d + e;
      && (a + b) + (c + (d + e)) == all
      && all[|a|..|a| + |b|] == b && all[|a| + |b| + |c| + |d|..] == e
  {
  }

  lemma CodebookPart(x: Index, c: nat)
    requires IsBuilt(x) && c < 96
    ensures var bytes, start := EncodeIndex(x), 8 + 4104 * c;
      |EncodeCodebook(x.codebooks[c])| == 4104 && |bytes| >= 393992 && bytes[start..start + 4104] == EncodeCodebook(x.codebooks[c])
  {
    hide EncodeIndex, EncodeAll, EncodeCodebook, ToLe;
    var codebooks, documents := Parts(x);
    forall i | 0 <= i < |x.codebooks| ensures |EncodeCodebook(x.codebooks[i])| == 4104 {
      FloatIsThere(x.codebooks[i], 0);
    }
    ElementAt(EncodeCodebook, x.codebooks, 4104, c);
    PartOfPart(EncodeIndex(x), 8, 393992, 4104 * c, 4104 * c + 4104);
  }

  lemma CodebooksAreThere(x: Index, c: nat, k: nat)
    requires IsBuilt(x) && c < 96 && k < 1024
    ensures CodebookIsAt(EncodeIndex(x), x, c, k)
  {
    hide EncodeIndex, EncodeCodebook, HasNumber;
    CodebookPart(x, c);
    FloatIsThere(x.codebooks[c], k);
    var bytes, part, start := EncodeIndex(x), EncodeCodebook(x.codebooks[c]), 8 + 4104 * c;
    NumberInPart(bytes, start, part, 0, 8, 1024);
    NumberInPart(bytes, start, part, 8 + 4 * k, 4, x.codebooks[c][k]);
  }

  lemma DocumentPart(x: Index, i: nat)
    requires IsBuilt(x) && i < |x.documents|
    ensures var bytes, start := EncodeIndex(x), 394004 + 112 * i;
      start + 112 <= |bytes| && bytes[start..start + 112] == EncodeDocument(x.documents[i])
  {
    hide EncodeIndex, EncodeAll, EncodeDocument, ToLe;
    var codebooks, documents := Parts(x);
    forall k | 0 <= k < |x.documents| ensures |EncodeDocument(x.documents[k])| == 112 {
      DocumentIsThere(x.documents[k]);
    }
    ElementAt(EncodeDocument, x.documents, 112, i);
    var bytes := EncodeIndex(x);
    PartOfPart(bytes, 394004, |bytes|, 112 * i, 112 * i + 112);
    assert bytes[394004..|bytes|] == bytes[394004..];
  }

  lemma DocumentsAreThere(x: Index, i: nat)
    requires IsBuilt(x) && i < |x.documents|
    ensures DocumentIsAt(EncodeIndex(x), x, i)
  {
    hide EncodeIndex, EncodeDocument, HasNumber;
    DocumentPart(x, i);
    DocumentIsThere(x.documents[i]);
    var bytes, part, start := EncodeIndex(x), EncodeDocument(x.documents[i]), 394004 + 112 * i;
    NumberInPart(bytes, start, part, 0, 8, x.documents[i].frameId);
    NumberInPart(bytes, start, part, 8, 8, 96);
    PartOfPart(bytes, start, start + 112, 16, 112);
  }

  lemma NumbersAreThere(x: Index)
    requires IsBuilt(x) && |x.documents| < 0x1_0000_0000_0000_0000
    ensures var bytes := EncodeIndex(x);
      HasNumber(bytes, 0, 8, 96) && HasNumber(bytes, 393992, 4, x.dimension) && HasNumber(bytes, 393996, 8, |x.documents|)
  {
    hide EncodeIndex, EncodeAll, HasNumber, ToLe, Pow256, IsBuilt;
    Widths();
    var codebooks, documents := Parts(x);
    var a, d, n := ToLe(96, 8), ToLe(x.dimension, 4), ToLe(|x.documents|, 8);
    NumberIsThere(96, 8, [], codebooks + d + n + documents);
    NumberIsThere(x.dimension, 4, a + codebooks, n + documents);
    NumberIsThere(|x.documents|, 8, a + codebooks + d, documents);
    Regrouped(a, codebooks, d, n, documents);
  }

  lemma Regrouped(a: seq<byte>, b: seq<byte>, c: seq<byte>, d: seq<byte>, e: seq<byte>)
    ensures a + b + c + d + e == [] + (a + (b + c + d + e)) == (a + b) + (c + (d + e)) == (a + b + c) + (d + e)
  {
  }

  lemma BuiltLayout(x: Index)
    requires IsBuilt(x) && |x.documents| < 0x1_0000_0000_0000_0000
    ensures HasLayout(EncodeIndex(x), x)
  {
    hide EncodeIndex, IsBuilt, HasNumber, CodebookIsAt, DocumentIsAt;
    BuiltSize(x);
    NumbersAreThere(x);
    forall c, k | 0 <= c < 96 && 0 <= k < 1024 ensures CodebookIsAt(EncodeIndex(x), x, c, k) {
      CodebooksAreThere(x, c, k);
    }
    forall i | 0 <= i < |x.documents| ensures DocumentIsAt(EncodeIndex(x), x, i) {
      DocumentsAreThere(x, i);
    }
  }

  // ---------- The largest index ----------

  /** The largest number of documents whose index can be read back. */
  const MAX_DOCUMENTS: nat := 4789972

  /** What was built can be read back EXACTLY when it has at most 4,789,972 documents. */
  lemma BuiltDecodesIff(x: Index)
    requires IsBuilt(x)
    ensures Decode(EncodeIndex(x)) == if |x.documents| <= MAX_DOCUMENTS then Ok(x) else Err(UnsupportedEncoding)
  {
    hide EncodeIndex, Decode, IsBuilt;
    BuiltSize(x);
    DecodeAfterFinish(x);
    if |x.documents| > MAX_DOCUMENTS {
      OversizedIsRejected(EncodeIndex(x));
    }
  }

  function ZeroIndex(n: nat): (x: Index)
    ensures IsBuilt(x) && |x.documents| == n
  {
    Index(seq(96, _ => seq(1024, _ => 0)), LEGACY_DIMENSION, seq(n, _ => Document(0, seq(96, _ => 0))))
  }

  /** An index that was built and cannot be read back, while with one document fewer it can. */
  lemma FirstTooLarge()
    ensures Decode(EncodeIndex(ZeroIndex(MAX_DOCUMENTS + 1))) == Err(UnsupportedEncoding)
    ensures Decode(EncodeIndex(ZeroIndex(MAX_DOCUMENTS))) == Ok(ZeroIndex(MAX_DOCUMENTS))
  {
    BuiltDecodesIff(ZeroIndex(MAX_DOCUMENTS + 1));
    BuiltDecodesIff(ZeroIndex(MAX_DOCUMENTS));
  }
}
