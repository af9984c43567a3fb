/** The serialised form of a compressed vector index, and its older layout (memvid/src/vec_pq.rs). */
module PqCodec {
  import opened Basics
  import opened LittleEndian

  /** MAX_INDEX_BYTES: what the decoder reads before it gives up. */
  const LIMIT: nat := 512 * 1024 * 1024

  const LEGACY_DIMENSION: u32 := 384

  /** One f32 of a codebook, as its bit pattern. */
  type Codebook = seq<u32>

  datatype Document = Document(frameId: u64, codes: seq<byte>)

  datatype Index = Index(codebooks: seq<Codebook>, dimension: u32, documents: seq<Document>)

  // ---------- Encoding: lists carry a u64 length, numbers have fixed width ----------

  function EncodeAll<T>(encode: T -> seq<byte>, xs: seq<T>): seq<byte> {
    if xs == [] then [] else encode(xs[0]) + EncodeAll(encode, xs[1..])
  }

  function EncodeList<T>(encode: T -> seq<byte>, xs: seq<T>): (bs: seq<byte>) {
    ToLe(|xs|, 8) + EncodeAll(encode, xs)
  }

  function EncodeByte(b: byte): seq<byte> { [b] }

  function EncodeFloat(x: u32): seq<byte> { ToLe(x, 4) }

  function EncodeCodebook(c: Codebook): seq<byte> { EncodeList(EncodeFloat, c) }

  function EncodeDocument(d: Document): seq<byte> { ToLe(d.frameId, 8) + EncodeList(EncodeByte, d.codes) }

  function EncodeIndex(x: Index): seq<byte> {
    EncodeList(EncodeCodebook, x.codebooks) + (ToLe(x.dimension, 4) + EncodeList(EncodeDocument, x.documents))
  }

  /** The older layout: the same without the dimension field. */
  function EncodeLegacy(codebooks: seq<Codebook>, documents: seq<Document>): seq<byte> {
    EncodeList(EncodeCodebook, codebooks) + EncodeList(EncodeDocument, documents)
  }

  // ---------- Decoding: a parser returns the value and the bytes it left ----------

  datatype Parsed<+T> = Failed | Parsed(value: T, rest: seq<byte>)

  type Parser<!T> = seq<byte> -> Parsed<T>

  function ParseNumber(w: nat, bs: seq<byte>): Parsed<nat> {
    if |bs| < w then Failed else Parsed(FromLe(bs[..w]), bs[w..])
  }

  function ParseMany<T>(parse: Parser<T>, n: nat, bs: seq<byte>): Parsed<seq<T>>
    decreases n
  {
    if n == 0 then Parsed([], bs)
    else
      var first := parse(bs);
      if first.Failed? then Failed
      else
        var others := ParseMany(parse, n - 1, first.rest);
        if others.Failed? then Failed else Parsed([first.value] + others.value, others.rest)
  }

  function ParseList<T>(parse: Parser<T>, bs: seq<byte>): Parsed<seq<T>> {
    var length := ParseNumber(8, bs);
    if length.Failed? then Failed else ParseMany(parse, length.value, length.rest)
  }

  function ParseByte(bs: seq<byte>): Parsed<byte> {
    if bs == [] then Failed else Parsed(bs[0], bs[1..])
  }

  function ParseFloat(bs: seq<byte>): Parsed<u32> {
    if |bs| < 4 then Failed
    else
      FromLeBounded(bs[..4]);
      Widths();
      Parsed(FromLe(bs[..4]), bs[4..])
  }

  function ParseCodebook(bs: seq<byte>): Parsed<Codebook> {
    ParseList(ParseFloat, bs)
  }

  function ParseDocument(bs: seq<byte>): Parsed<Document> {
    if |bs| < 8 then Failed
    else
      FromLeBounded(bs[..8]);
      Widths();
      var codes := ParseList(ParseByte, bs[8..]);
      if codes.Failed? then Failed else Parsed(Document(FromLe(bs[..8]), codes.value), codes.rest)
  }

  function ParseIndex(bs: seq<byte>): Parsed<Index> {
    var codebooks := ParseList(ParseCodebook, bs);
    if codebooks.Failed? then Failed
    else
      var dimension := ParseFloat(codebooks.rest);
      if dimension.Failed? then Failed
      else
        var documents := ParseList(ParseDocument, dimension.rest);
        if documents.Failed? then Failed
        else Parsed(Index(codebooks.value, dimension.value, documents.value), documents.rest)
  }

  function ParseLegacy(bs: seq<byte>): Parsed<Index> {
    var codebooks := ParseList(ParseCodebook, bs);
    if codebooks.Failed? then Failed
    else
      var documents := ParseList(ParseDocument, codebooks.rest);
      if documents.Failed? then Failed
      else Parsed(Index(codebooks.value, LEGACY_DIMENSION, documents.value), documents.rest)
  }

  /** Runs a parser on at most LIMIT bytes and accepts only if it consumed the whole input. */
  function Whole<T>(parse: Parser<T>, bytes: seq<byte>): Option<T> {
    var visible := bytes[..Min(LIMIT, |bytes|)];
    var parsed := parse(visible);
    if parsed.Parsed? && |visible| - |parsed.rest| == |bytes| then Some(parsed.value) else None
  }

  datatype DecodeError = UnsupportedEncoding

  /** `QuantizedVecIndex::decode`: the current layout first, then the older one. */
  function Decode(bytes: seq<byte>): Result<Index, DecodeError> {
    var current := Whole(ParseIndex, bytes);
    if current.Some? then Ok(current.value)
    else
      var legacy := Whole(ParseLegacy, bytes);
      if legacy.Some? then Ok(legacy.value) else Err(UnsupportedEncoding)
  }

  // ---------- Parsing undoes encoding ----------

  /** After the encoding of x, whatever follows, the parser returns x and what follows. */
  ghost predicate Inverts<T(!new)>(parse: Parser<T>, encode: T -> seq<byte>, x: T) {
    forall rest :: parse(encode(x) + rest) == Parsed(x, rest)
  }

  lemma {:induction false} ManyInverts<T(!new)>(parse: Parser<T>, encode: T -> seq<byte>, xs: seq<T>, rest: seq<byte>)
    requires forall i :: 0 <= i < |xs| ==> Inverts(parse, encode, xs[i])
    ensures ParseMany(parse, |xs|, EncodeAll(encode, xs) + rest) == Parsed(xs, rest)
  {
    if xs != [] {
      var tail := EncodeAll(encode, xs[1..]) + rest;
      assert EncodeAll(encode, xs) + rest == encode(xs[0]) + tail;
      assert Inverts(parse, encode, xs[0]);
      ManyInverts(parse, encode, xs[1..], rest);
      assert [xs[0]] + xs[1..] == xs;
    }
  }

  lemma NumberInverts(n: nat, w: nat, rest: seq<byte>)
    requires n < Pow256(w)
    ensures ParseNumber(w, ToLe(n, w) + rest) == Parsed(n, rest)
  {
    FromToLe(n, w);
    assert (ToLe(n, w) + rest)[..w] == ToLe(n, w) && (ToLe(n, w) + rest)[w..] == rest;
  }

  lemma ListInverts<T(!new)>(parse: Parser<T>, encode: T -> seq<byte>, xs: seq<T>, rest: seq<byte>)
    requires forall i :: 0 <= i < |xs| ==> Inverts(parse, encode, xs[i])
    requires |xs| < Pow256(8)
    ensures ParseList(parse, EncodeList(encode, xs) + rest) == Parsed(xs, rest)
  {
    NumberInverts(|xs|, 8, EncodeAll(encode, xs) + rest);
    assert EncodeList(encode, xs) + rest == ToLe(|xs|, 8) + (EncodeAll(encode, xs) + rest);
    ManyInverts(parse, encode, xs, rest);
  }

  lemma {:induction false} ElementFits<T>(encode: T -> seq<byte>, xs: seq<T>, i: nat)
    requires i < |xs|
    ensures |encode(xs[i])| <= |EncodeAll(encode, xs)|
  {
    if i > 0 {
      ElementFits(encode, xs[1..], i - 1);
    }
  }

  lemma {:induction false} CountFits<T>(encode: T -> seq<byte>, xs: seq<T>, least: nat)
    requires forall i :: 0 <= i < |xs| ==> |encode(xs[i])| >= least
    ensures |EncodeAll(encode, xs)| >= |xs| * least
  {
    if xs != [] {
      CountFits(encode, xs[1..], least);
      assert |xs| * least == least + |xs[1..]| * least;
    }
  }

  lemma FloatInverts(x: u32)
    ensures Inverts(ParseFloat, EncodeFloat, x)
  {
    Widths();
    forall rest: seq<byte> ensures ParseFloat(EncodeFloat(x) + rest) == Parsed(x, rest) {
      NumberInverts(x, 4, rest);
    }
  }

  lemma ByteInverts(b: byte)
    ensures Inverts(ParseByte, EncodeByte, b)
  {
  }

  lemma CodebookInverts(c: Codebook)
    requires |EncodeCodebook(c)| <= LIMIT
    ensures Inverts(ParseCodebook, EncodeCodebook, c)
  {
    CountFits(EncodeFloat, c, 1);
    Widths();
    forall i | 0 <= i < |c| ensures Inverts(ParseFloat, EncodeFloat, c[i]) {
      FloatInverts(c[i]);
    }
    forall rest: seq<byte> ensures ParseCodebook(EncodeCodebook(c) + rest) == Parsed(c, rest) {
      ListInverts(ParseFloat, EncodeFloat, c, rest);
    }
  }

  lemma DocumentInverts(d: Document)
    requires |EncodeDocument(d)| <= LIMIT
    ensures Inverts(ParseDocument, EncodeDocument, d)
  {
    CountFits(EncodeByte, d.codes, 1);
    Widths();
    forall i | 0 <= i < |d.codes| ensures Inverts(ParseByte, EncodeByte, d.codes[i]) {
      ByteInverts(d.codes[i]);
    }
    forall rest: seq<byte> ensures ParseDocument(EncodeDocument(d) + rest) == Parsed(d, rest) {
      ListInverts(ParseByte, EncodeByte, d.codes, rest);
      DocumentParses(d, rest);
    }
  }

  lemma DocumentParses(d: Document, rest: seq<byte>)
    requires ParseList(ParseByte, EncodeList(EncodeByte, d.codes) + rest) == Parsed(d.codes, rest)
    ensures ParseDocument(EncodeDocument(d) + rest) == Parsed(d, rest)
  {
    hide ParseList, EncodeList, ToLe, FromLe, Pow256;
    var codes := EncodeList(EncodeByte, d.codes) + rest;
    assert EncodeDocument(d) + rest == ToLe(d.frameId, 8) + codes;
    Widths();
    NumberInverts(d.frameId, 8, codes);
  }

  lemma CodebooksInvert(cs: seq<Codebook>, rest: seq<byte>)
    requires |EncodeList(EncodeCodebook, cs)| <= LIMIT
    ensures ParseList(ParseCodebook, EncodeList(EncodeCodebook, cs) + rest) == Parsed(cs, rest)
  {
    CountFits(EncodeCodebook, cs, 8);
    Widths();
    forall i | 0 <= i < |cs| ensures Inverts(ParseCodebook, EncodeCodebook, cs[i]) {
      ElementFits(EncodeCodebook, cs, i);
      CodebookInverts(cs[i]);
    }
    ListInverts(ParseCodebook, EncodeCodebook, cs, rest);
  }

  lemma DocumentsInvert(ds: seq<Document>, rest: seq<byte>)
    requires |EncodeList(EncodeDocument, ds)| <= LIMIT
    ensures ParseList(ParseDocument, EncodeList(EncodeDocument, ds) + rest) == Parsed(ds, rest)
    ensures |ds| < 0x1_0000_0000
  {
    CountFits(EncodeDocument, ds, 16);
    Widths();
    forall i | 0 <= i < |ds| ensures Inverts(ParseDocument, EncodeDocument, ds[i]) {
      ElementFits(EncodeDocument, ds, i);
      DocumentInverts(ds[i]);
    }
    ListInverts(ParseDocument, EncodeDocument, ds, rest);
  }

  // ---------- Round trip of the current layout ----------

  lemma OversizedIsRejected(bytes: seq<byte>)
    requires |bytes| > LIMIT
    ensures Decode(bytes) == Err(UnsupportedEncoding)
  {
  }

  lemma IndexParses(x: Index)
    requires |EncodeIndex(x)| <= LIMIT
    ensures ParseIndex(EncodeIndex(x)) == Parsed(x, [])
  {
    var documents := EncodeList(EncodeDocument, x.documents);
    CodebooksInvert(x.codebooks, ToLe(x.dimension, 4) + documents);
    Widths();
    NumberInverts(x.dimension, 4, documents);
    DocumentsInvert(x.documents, []);
    assert documents + [] == documents;
  }

  /** Decoding what the builder finished gives the index back EXACTLY when it is within the size limit,
      which encoding does not enforce. */
  lemma DecodeAfterFinish(x: Index)
    ensures Decode(EncodeIndex(x)) == Ok(x) <==> |EncodeIndex(x)| <= LIMIT
  {
    var bytes := EncodeIndex(x);
    if |bytes| > LIMIT {
      OversizedIsRejected(bytes);
    } else {
      IndexParses(x);
      assert bytes[..Min(LIMIT, |bytes|)] == bytes;
    }
  }

  // ---------- The older layout is never mistaken for the current one ----------

  lemma LegacyParses(codebooks: seq<Codebook>, documents: seq<Document>)
    requires |EncodeLegacy(codebooks, documents)| <= LIMIT
    ensures ParseLegacy(EncodeLegacy(codebooks, documents)) == Parsed(Index(codebooks, LEGACY_DIMENSION, documents), [])
  {
    var tail := EncodeList(EncodeDocument, documents);
    CodebooksInvert(codebooks, tail);
    DocumentsInvert(documents, []);
    assert tail + [] == tail;
  }

  lemma {:induction false} ManyConsume<T(!new)>(parse: Parser<T>, n: nat, bs: seq<byte>, least: nat)
    requires forall b: seq<byte> :: parse(b).Parsed? ==> |parse(b).rest| + least <= |b|
    ensures ParseMany(parse, n, bs).Parsed? ==> |ParseMany(parse, n, bs).rest| + n * least <= |bs|
    decreases n
  {
    if n > 0 && parse(bs).Parsed? {
      ManyConsume(parse, n - 1, parse(bs).rest, least);
      assert n * least == (n - 1) * least + least;
    }
  }

  /** Every document takes at least its frame id and its length prefix. */
  lemma DocumentConsumes(bs: seq<byte>)
    ensures ParseDocument(bs).Parsed? ==> |ParseDocument(bs).rest| + 16 <= |bs|
  {
    if |bs| >= 16 {
      ManyConsume(ParseByte, FromLe(bs[8..][..8]), bs[8..][8..], 0);
    }
  }

  /** Read four bytes late, a small count becomes the number in the next four bytes, shifted up. */
  lemma ShiftedCount(count: seq<byte>, body: seq<byte>)
    requires |count| == 8 && FromLe(count[4..]) == 0 && |body| >= 4
    ensures FromLe((count + body)[4..][..8]) == 0x1_0000_0000 * FromLe(body[..4])
  {
    assert (count + body)[4..][..8] == count[4..] + body[..4];
    FromLeConcat(count[4..], body[..4]);
    Widths();
  }

  lemma NonEmptyBody(documents: seq<Document>)
    requires documents != []
    ensures |EncodeAll(EncodeDocument, documents)| >= 16
  {
    assert |EncodeDocument(documents[0])| >= 16;
  }

  lemma HugeCountFails(n: nat, bs: seq<byte>)
    requires |bs| <= LIMIT
    ensures n > 0 ==> ParseMany(ParseDocument, 0x1_0000_0000 * n, bs).Failed?
    ensures ParseMany(ParseDocument, 0, bs) == Parsed([], bs)
  {
    forall b: seq<byte> ensures ParseDocument(b).Parsed? ==> |ParseDocument(b).rest| + 16 <= |b| {
      DocumentConsumes(b);
    }
    hide ParseDocument;
    ManyConsume(ParseDocument, 0x1_0000_0000 * n, bs, 16);
  }

  /** So either no document is read and bytes remain, or far more are announced than the bytes can hold. */
  lemma ShiftedDocuments(documents: seq<Document>)
    requires |EncodeList(EncodeDocument, documents)| <= LIMIT
    ensures var shifted := ParseList(ParseDocument, EncodeList(EncodeDocument, documents)[4..]);
      shifted.Parsed? ==> shifted.rest != []
  {
    DocumentsInvert(documents, []);
    var bs := EncodeList(EncodeDocument, documents)[4..];
    if documents != [] {
      var body := EncodeAll(EncodeDocument, documents);
      NonEmptyBody(documents);
      HighBytesAreZero(|documents|);
      hide ToLe, FromLe, EncodeAll, ParseDocument, ParseMany;
      ShiftedCount(ToLe(|documents|, 8), body);
      var n := FromLe(body[..4]);
      HugeCountFails(n, bs[8..]);
    }
  }

  lemma HighBytesAreZero(n: nat)
    requires n < 0x1_0000_0000
    ensures FromLe(ToLe(n, 8)[4..]) == 0
  {
    var bs := ToLe(n, 8);
    Widths();
    FromToLe(n, 8);
    FromLeConcat(bs[..4], bs[4..]);
    assert bs[..4] + bs[4..] == bs;
  }

  /** No index in the older layout can be consumed entirely by the current parser, so decoding returns
      its documents and codebooks with dimension 384 - whenever it is within the size limit. */
  lemma LegacyDecodes(codebooks: seq<Codebook>, documents: seq<Document>)
    ensures var bytes := EncodeLegacy(codebooks, documents);
      && Whole(ParseIndex, bytes) == None
      && Decode(bytes) == if |bytes| <= LIMIT then Ok(Index(codebooks, LEGACY_DIMENSION, documents))
                          else Err(UnsupportedEncoding)
  {
    var bytes := EncodeLegacy(codebooks, documents);
    if |bytes| > LIMIT {
      OversizedIsRejected(bytes);
    } else {
      hide EncodeList, ParseList;
      var tail := EncodeList(EncodeDocument, documents);
      CodebooksInvert(codebooks, tail);
      ShiftedDocuments(documents);
      LegacyParses(codebooks, documents);
      assert bytes[..Min(LIMIT, |bytes|)] == bytes;
    }
  }

  // ---------- Only encodings decode ----------

  /** Whatever the parser accepts is the encoding of what it returns, followed by what it leaves. */
  ghost predicate Reflects<T(!new)>(parse: Parser<T>, encode: T -> seq<byte>) {
    forall bs :: parse(bs).Parsed? ==> bs == encode(parse(bs).value) + parse(bs).rest
  }

  lemma NumberReflects(w: nat, bs: seq<byte>)
    requires |bs| >= w
    ensures bs == ToLe(FromLe(bs[..w]), w) + bs[w..]
  {
    ToFromLe(bs[..w]);
  }

  lemma {:induction false} ManyReflects<T(!new)>(parse: Parser<T>, encode: T -> seq<byte>, n: nat, bs: seq<byte>)
    requires Reflects(parse, encode)
    ensures var r := ParseMany(parse, n, bs);
      r.Parsed? ==> |r.value| == n && bs == EncodeAll(encode, r.value) + r.rest
    decreases n
  {
    if n > 0 && ParseMany(parse, n, bs).Parsed? {
      var first := parse(bs);
      ManyReflects(parse, encode, n - 1, first.rest);
      var others := ParseMany(parse, n - 1, first.rest);
      assert ([first.value] + others.value)[1..] == others.value;
      assert encode(first.value) + (EncodeAll(encode, others.value) + others.rest)
          == (encode(first.value) + EncodeAll(encode, others.value)) + others.rest;
    }
  }

  lemma ListReflects<T(!new)>(parse: Parser<T>, encode: T -> seq<byte>, bs: seq<byte>)
    requires Reflects(parse, encode)
    ensures var r := ParseList(parse, bs); r.Parsed? ==> bs == EncodeList(encode, r.value) + r.rest
  {
    if |bs| >= 8 {
      NumberReflects(8, bs);
      ManyReflects(parse, encode, FromLe(bs[..8]), bs[8..]);
    }
  }

  lemma FloatReflects()
    ensures Reflects(ParseFloat, EncodeFloat)
  {
    forall bs | ParseFloat(bs).Parsed? ensures bs == EncodeFloat(ParseFloat(bs).value) + ParseFloat(bs).rest {
      NumberReflects(4, bs);
    }
  }

  lemma CodebookReflects()
    ensures Reflects(ParseCodebook, EncodeCodebook)
  {
    FloatReflects();
    forall bs ensures var r := ParseCodebook(bs); r.Parsed? ==> bs == EncodeCodebook(r.value) + r.rest {
      ListReflects(ParseFloat, EncodeFloat, bs);
    }
  }

  lemma DocumentReflects()
    ensures Reflects(ParseDocument, EncodeDocument)
  {
    assert Reflects(ParseByte, EncodeByte);
    hide ParseList, EncodeList, ToLe, FromLe, Pow256;
    forall bs | ParseDocument(bs).Parsed? ensures bs == EncodeDocument(ParseDocument(bs).value) + ParseDocument(bs).rest {
      NumberReflects(8, bs);
      ListReflects(ParseByte, EncodeByte, bs[8..]);
    }
  }

  lemma IndexReflects(bs: seq<byte>)
    ensures var r := ParseIndex(bs); r.Parsed? ==> bs == EncodeIndex(r.value) + r.rest
    ensures var r := ParseLegacy(bs);
      r.Parsed? ==> r.value.dimension == LEGACY_DIMENSION && bs == EncodeLegacy(r.value.codebooks, r.value.documents) + r.rest
  {
    hide ParseList, EncodeList, ToLe, FromLe, Pow256, ParseDocument, ParseCodebook, Reflects;
    CodebookReflects();
    DocumentReflects();
    ListReflects(ParseCodebook, EncodeCodebook, bs);
    var codebooks := ParseList(ParseCodebook, bs);
    if codebooks.Parsed? {
      ListReflects(ParseDocument, EncodeDocument, codebooks.rest);
      if |codebooks.rest| >= 4 {
        NumberReflects(4, codebooks.rest);
        ListReflects(ParseDocument, EncodeDocument, codebooks.rest[4..]);
      }
    }
  }

  /** Exactly which bytes decode to an index: its encoding in the current layout, or - if its dimension is
      384 - in the older one, in both cases within the size limit. */
  lemma DecodeMeans(bytes: seq<byte>, x: Index)
    ensures Decode(bytes) == Ok(x) <==>
      && |bytes| <= LIMIT
      && (bytes == EncodeIndex(x) || (x.dimension == LEGACY_DIMENSION && bytes == EncodeLegacy(x.codebooks, x.documents)))
  {
    hide ParseIndex, ParseLegacy, EncodeIndex, EncodeLegacy;
    if |bytes| > LIMIT {
      OversizedIsRejected(bytes);
    } else {
      DecodeAfterFinish(x);
      LegacyDecodes(x.codebooks, x.documents);
      IndexReflects(bytes);
      WholeOf(ParseIndex, bytes);
      WholeOf(ParseLegacy, bytes);
    }
  }

  lemma WholeOf<T>(parse: Parser<T>, bytes: seq<byte>)
    requires |bytes| <= LIMIT
    ensures Whole(parse, bytes).Some? ==> parse(bytes) == Parsed(Whole(parse, bytes).value, [])
  {
    assert bytes[..Min(LIMIT, |bytes|)] == bytes;
  }
}
