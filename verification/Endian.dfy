/** Emitting and parsing BTF data in either byte order (btf.c, lines 209-453, 854-902 and 1235-1291).

The host is little-endian: a word stored in the other byte order reads as its byte-swapped
value. */
module Endian {
  import opened BtfTypes
  import opened Seqs
  import opened BtfTable
  import opened StrSets

  const ENOTSUP := -95

  const BTF_MAGIC: u16 := 0xeB9F
  const HDR_SZ: u32 := 24
  const MAX_STR_OFFSET := 0x7fff_ffff

  type u16 = x: int | 0 <= x < 0x1_0000

  function Bswap16(x: u16): u16 { x % 0x100 * 0x100 + x / 0x100 }

  /** The halves change places, and each is swapped. */
  function Bswap32(x: u32): u32 {
    Bswap16(x % 0x1_0000) * 0x1_0000 + Bswap16(x / 0x1_0000)
  }

  // ---- loads and stores ----

  function Load16(b: seq<Byte>, at: nat): u16
    requires at + 2 <= |b|
  {
    b[at] as int + b[at + 1] as int * 0x100
  }

  function Load32(b: seq<Byte>, at: nat): u32
    requires at + 4 <= |b|
  {
    Load16(b, at) + Load16(b, at + 2) * 0x1_0000
  }

  function Store16(x: u16): (b: seq<Byte>)
    ensures |b| == 2 && Load16(b, 0) == x
  {
    [x % 0x100, x / 0x100]
  }

  function Store32(x: u32): (b: seq<Byte>)
    ensures |b| == 4 && Load32(b, 0) == x
  {
    Store16(x % 0x1_0000) + Store16(x / 0x1_0000)
  }

  /** The same of data in the other byte order: the highest byte comes first. */
  function Load16Big(b: seq<Byte>, at: nat): u16
    requires at + 2 <= |b|
  {
    b[at] as int * 0x100 + b[at + 1] as int
  }

  function Load32Big(b: seq<Byte>, at: nat): u32
    requires at + 4 <= |b|
  {
    b[at] as int * 0x100_0000 + b[at + 1] as int * 0x1_0000 + b[at + 2] as int * 0x100 + b[at + 3] as int
  }

  function Store16Big(x: u16): (b: seq<Byte>)
    ensures |b| == 2 && Load16Big(b, 0) == x
  {
    [x / 0x100, x % 0x100]
  }

  function Store32Big(x: u32): (b: seq<Byte>)
    ensures |b| == 4 && Load32Big(b, 0) == x
  {
    Store16Big(x / 0x1_0000) + Store16Big(x % 0x1_0000)
  }

  lemma Bswap16Stores(y: u16)
    ensures Store16(Bswap16(y)) == [y / 0x100, y % 0x100]
  {
    BytesOf(y % 0x100, y / 0x100);
  }

  lemma Bswap32Stores(x: u32)
    ensures Store32(Bswap32(x)) == Store16(Bswap16(x / 0x1_0000)) + Store16(Bswap16(x % 0x1_0000))
  {
    hide Bswap16;
    HalvesOf(Bswap16(x % 0x1_0000), Bswap16(x / 0x1_0000));
  }

  lemma HalvesOf(high: nat, low: nat)
    requires low < 0x1_0000
    ensures (high * 0x1_0000 + low) % 0x1_0000 == low && (high * 0x1_0000 + low) / 0x1_0000 == high
  {
  }

  /** A swapped value has the bytes of the value, in the opposite order. */
  lemma BswapBytes(x: u32, y: u16)
    ensures forall k :: 0 <= k < 4 ==> Store32(Bswap32(x))[k] == Store32(x)[3 - k]
    ensures forall k :: 0 <= k < 2 ==> Store16(Bswap16(y))[k] == Store16(y)[1 - k]
  {
    Bswap16Stores(y);
    Bswap16Stores(x / 0x1_0000);
    Bswap16Stores(x % 0x1_0000);
    Bswap32Stores(x);
    hide Bswap16, Bswap32;
  }

  lemma BswapStores(x: u32, y: u16)
    ensures Store32(Bswap32(x)) == Store32Big(x) && Store16(Bswap16(y)) == Store16Big(y)
  {
    Bswap16Stores(y);
    Bswap16Stores(x / 0x1_0000);
    Bswap16Stores(x % 0x1_0000);
    Bswap32Stores(x);
    hide Bswap16, Bswap32, Store32;
  }

  lemma Bswap16Loads(low: Byte, high: Byte)
    ensures Bswap16(low as int + high as int * 0x100) == low as int * 0x100 + high as int
  {
    BytesOf(high, low);
  }

  lemma BswapLoads(b: seq<Byte>, at: nat)
    ensures at + 2 <= |b| ==> Bswap16(Load16(b, at)) == Load16Big(b, at)
    ensures at + 4 <= |b| ==> Bswap32(Load32(b, at)) == Load32Big(b, at)
  {
    if at + 2 <= |b| {
      Bswap16Loads(b[at], b[at + 1]);
    }
    if at + 4 <= |b| {
      Bswap16Loads(b[at + 2], b[at + 3]);
      hide Bswap16;
      HalvesOf(Load16(b, at + 2), Load16(b, at));
    }
  }

  function LoadWordsBig(b: seq<Byte>): (ws: seq<u32>)
    requires |b| % 4 == 0
    ensures |ws| == |b| / 4 && forall i :: 0 <= i < |ws| ==> ws[i] == Load32Big(b, 4 * i)
  {
    seq(|b| / 4, i requires 0 <= i < |b| / 4 => Load32Big(b, 4 * i))
  }

  function StoreWordsBig(ws: seq<u32>): (b: seq<Byte>)
    ensures |b| == 4 * |ws|
  {
    if ws == [] then [] else StoreWordsBig(ws[..|ws| - 1]) + Store32Big(ws[|ws| - 1])
  }

  function LoadWords(b: seq<Byte>): (ws: seq<u32>)
    requires |b| % 4 == 0
    ensures |ws| == |b| / 4 && forall i :: 0 <= i < |ws| ==> ws[i] == Load32(b, 4 * i)
  {
    seq(|b| / 4, i requires 0 <= i < |b| / 4 => Load32(b, 4 * i))
  }

  function StoreWords(ws: seq<u32>): (b: seq<Byte>)
    ensures |b| == 4 * |ws|
  {
    if ws == [] then [] else StoreWords(ws[..|ws| - 1]) + Store32(ws[|ws| - 1])
  }

  /** What is loaded from a part does not depend on what is around it. */
  lemma LoadWithin(b: seq<Byte>, part: seq<Byte>, at: nat, off: nat)
    requires at + |part| <= |b| && b[at..at + |part|] == part
    ensures off < |part| ==> b[at + off] == part[off]
    ensures off + 2 <= |part| ==> Load16(b, at + off) == Load16(part, off)
    ensures off + 4 <= |part| ==> Load32(b, at + off) == Load32(part, off)
  {
    forall k | 0 <= k < |part|
      ensures b[at + k] == part[k]
    {
      assert b[at..at + |part|][k] == part[k];
    }
  }

  lemma {:induction false} LoadStored(ws: seq<u32>)
    ensures LoadWords(StoreWords(ws)) == ws
    decreases |ws|
  {
    hide Load32, Store32;
    var b := StoreWords(ws);
    if ws != [] {
      var n := |ws| - 1;
      var init := StoreWords(ws[..n]);
      LoadStored(ws[..n]);
      forall i | 0 <= i < |ws|
        ensures Load32(b, 4 * i) == ws[i]
      {
        if i < n {
          assert b[0..|init|] == init;
          LoadWithin(b, init, 0, 4 * i);
          assert LoadWords(init)[i] == ws[..n][i];
        } else {
          assert b[|init|..|init| + 4] == Store32(ws[n]);
          LoadWithin(b, Store32(ws[n]), |init|, 0);
        }
      }
    }
  }

  lemma Bswap16Twice(x: u16)
    ensures Bswap16(Bswap16(x)) == x
  {
    BytesOf(x % 0x100, x / 0x100);
  }

  lemma BytesOf(high: nat, low: nat)
    requires low < 0x100
    ensures (high * 0x100 + low) % 0x100 == low && (high * 0x100 + low) / 0x100 == high
  {
  }

  lemma BswapTwice(x: u32)
    ensures Bswap32(Bswap32(x)) == x
  {
    Bswap16Twice(x % 0x1_0000);
    Bswap16Twice(x / 0x1_0000);
    hide Bswap16;
    var y := Bswap32(x);
    assert y % 0x1_0000 == Bswap16(x / 0x1_0000) && y / 0x1_0000 == Bswap16(x % 0x1_0000);
  }

  /** All words in the other byte order. */
  function Swapped(ws: seq<u32>): (r: seq<u32>)
    ensures |r| == |ws| && forall i :: 0 <= i < |ws| ==> r[i] == Bswap32(ws[i])
  {
    seq(|ws|, i requires 0 <= i < |ws| => Bswap32(ws[i]))
  }

  lemma SwappedTwice(ws: seq<u32>)
    ensures Swapped(Swapped(ws)) == ws
  {
    forall i | 0 <= i < |ws|
      ensures Swapped(Swapped(ws))[i] == ws[i]
    {
      BswapTwice(ws[i]);
    }
  }

  // ---- the header ----

  datatype Header = Header(magic: u16, version: Byte, flags: Byte, hdrLen: u32, typeOff: u32, typeLen: u32,
                           strOff: u32, strLen: u32)

  function LoadHdr(b: seq<Byte>): Header
    requires |b| >= HDR_SZ
  {
    Header(Load16(b, 0), b[2], b[3], Load32(b, 4), Load32(b, 8), Load32(b, 12), Load32(b, 16), Load32(b, 20))
  }

  function StoreHdr(h: Header): (b: seq<Byte>)
    ensures |b| == HDR_SZ
  {
    Store16(h.magic) + [h.version, h.flags] + Store32(h.hdrLen)
    + Store32(h.typeOff) + Store32(h.typeLen) + Store32(h.strOff) + Store32(h.strLen)
  }

  lemma LoadStoredHdr(h: Header, b: seq<Byte>)
    requires StoreHdr(h) <= b
    ensures LoadHdr(b) == h
  {
    hide Store16, Store32, Load16, Load32;
    var s := StoreHdr(h);
    assert forall k :: 0 <= k < HDR_SZ ==> b[k] == s[k];
    assert b[2] == h.version && b[3] == h.flags;
    assert b[0..2] == Store16(h.magic) && b[4..8] == Store32(h.hdrLen) && b[8..12] == Store32(h.typeOff);
    assert b[12..16] == Store32(h.typeLen) && b[16..20] == Store32(h.strOff) && b[20..24] == Store32(h.strLen);
    LoadWithin(b, Store16(h.magic), 0, 0);
    LoadWithin(b, Store32(h.hdrLen), 4, 0);
    LoadWithin(b, Store32(h.typeOff), 8, 0);
    LoadWithin(b, Store32(h.typeLen), 12, 0);
    LoadWithin(b, Store32(h.strOff), 16, 0);
    LoadWithin(b, Store32(h.strLen), 20, 0);
  }

  function BswapHdr(h: Header): Header {
    h.(magic := Bswap16(h.magic), hdrLen := Bswap32(h.hdrLen), typeOff := Bswap32(h.typeOff),
       typeLen := Bswap32(h.typeLen), strOff := Bswap32(h.strOff), strLen := Bswap32(h.strLen))
  }

  lemma BswapHdrTwice(h: Header)
    ensures BswapHdr(BswapHdr(h)) == h
  {
    Bswap16Twice(h.magic);
    BswapTwice(h.hdrLen);
    BswapTwice(h.typeOff);
    BswapTwice(h.typeLen);
    BswapTwice(h.strOff);
    BswapTwice(h.strLen);
  }

  /** The header of data in the other byte order. */
  function LoadHdrBig(b: seq<Byte>): Header
    requires |b| >= HDR_SZ
  {
    Header(Load16Big(b, 0), b[2], b[3], Load32Big(b, 4), Load32Big(b, 8), Load32Big(b, 12), Load32Big(b, 16),
           Load32Big(b, 20))
  }

  function StoreHdrBig(h: Header): (b: seq<Byte>)
    ensures |b| == HDR_SZ
  {
    Store16Big(h.magic) + [h.version, h.flags] + Store32Big(h.hdrLen)
    + Store32Big(h.typeOff) + Store32Big(h.typeLen) + Store32Big(h.strOff) + Store32Big(h.strLen)
  }

  /** Swapping the fields of a header is reading, or writing, it in the other byte order. */
  lemma BswapHdrLoads(b: seq<Byte>)
    requires |b| >= HDR_SZ
    ensures BswapHdr(LoadHdr(b)) == LoadHdrBig(b)
  {
    BswapLoads(b, 0);
    BswapLoads(b, 4);
    BswapLoads(b, 8);
    BswapLoads(b, 12);
    BswapLoads(b, 16);
    BswapLoads(b, 20);
    hide Bswap32, Bswap16, Load16, Load32, Load16Big, Load32Big;
  }

  lemma BswapHdrStores(h: Header)
    ensures StoreHdr(BswapHdr(h)) == StoreHdrBig(h)
  {
    BswapStores(h.hdrLen, h.magic);
    BswapStores(h.typeOff, h.magic);
    BswapStores(h.typeLen, h.magic);
    BswapStores(h.strOff, h.magic);
    BswapStores(h.strLen, h.magic);
    hide Bswap32, Bswap16, Store16, Store32, Store16Big, Store32Big;
  }

  /** A header that describes sections within size bytes. */
  predicate HeaderFits(h: Header, size: nat) {
    && h.magic == BTF_MAGIC && h.hdrLen <= size && h.strOff + h.strLen <= size - h.hdrLen
    && h.typeOff + h.typeLen <= h.strOff && h.typeOff % 4 == 0
  }

  /** `btf_parse_hdr`. */
  method ParseHdr(h: Header, rawSize: nat) returns (err: int, hdr: Header, swapped: bool)
    ensures swapped <==> rawSize >= HDR_SZ && h.magic == Bswap16(BTF_MAGIC)
    ensures err == 0 ==> hdr == if swapped then BswapHdr(h) else h
    ensures err == 0 <==> rawSize >= HDR_SZ
                          && if swapped then Bswap32(h.hdrLen) == HDR_SZ && HeaderFits(BswapHdr(h), rawSize)
                             else HeaderFits(h, rawSize)
    ensures err in {0, EINVAL, ENOTSUP}
  {
    Bswap16Twice(BTF_MAGIC);
    hdr, swapped := h, false;
    if rawSize < HDR_SZ { return EINVAL, hdr, swapped; }
    if hdr.magic == Bswap16(BTF_MAGIC) {
      swapped := true;
      if Bswap32(hdr.hdrLen) != HDR_SZ { return ENOTSUP, hdr, swapped; }
      hdr := BswapHdr(hdr);
    } else if hdr.magic != BTF_MAGIC { return EINVAL, hdr, swapped; }
    if rawSize < hdr.hdrLen { return EINVAL, hdr, swapped; }
    var metaLeft := rawSize - hdr.hdrLen;
    if metaLeft < hdr.strOff + hdr.strLen { return EINVAL, hdr, swapped; }
    if hdr.typeOff + hdr.typeLen > hdr.strOff { return EINVAL, hdr, swapped; }
    if hdr.typeOff % 4 != 0 { return EINVAL, hdr, swapped; }
    err := 0;
  }

  /** `btf_parse_str_sec`. */
  predicate StrSecOk(strs: seq<Byte>, hasBase: bool) {
    || (hasBase && strs == [])
    || (strs != [] && |strs| - 1 <= MAX_STR_OFFSET && strs[|strs| - 1] == 0 && (hasBase || strs[0] == 0))
  }

  // ---- swapping one record in place ----

  /** The words from one position to another have been swapped, and no others. */
  ghost predicate SwappedIn(ws: seq<u32>, now: seq<u32>, from: nat, to: int) {
    |now| == |ws| && forall k :: 0 <= k < |ws| ==> now[k] == if from <= k < to then Bswap32(ws[k]) else ws[k]
  }

  lemma SwappedMore(ws: seq<u32>, a: seq<u32>, b: seq<u32>, from: nat, mid: nat, to: nat)
    requires SwappedIn(ws, a, from, mid) && SwappedIn(a, b, mid, to) && from <= mid <= to
    ensures SwappedIn(ws, b, from, to)
  {
  }

  lemma SwappedBoth(ws: seq<u32>, a: seq<u32>, b: seq<u32>, from: nat, mid: nat, to: nat)
    requires SwappedIn(ws, a, mid, to) && SwappedIn(a, b, from, mid) && from <= mid <= to
    ensures SwappedIn(ws, b, from, to)
  {
  }

  /** `btf_bswap_type_base`. */
  method BswapTypeBase(a: array<u32>, t: nat)
    requires t + 3 <= a.Length
    modifies a
    ensures SwappedIn(old(a[..]), a[..], t, t + 3)
  {
    hide Bswap32;
    a[t] := Bswap32(a[t]);
    a[t + 1] := Bswap32(a[t + 1]);
    a[t + 2] := Bswap32(a[t + 2]);
  }

  /** How many words each element behind a record of this kind takes. */
  function ElemWords(kind: nat): nat {
    if kind == KIND_ENUM || kind == KIND_FUNC_PROTO then 2 else 3
  }

  /** `btf_bswap_type_rest`, which relies on the info word reading right. */
  method BswapTypeRest(a: array<u32>, t: nat) returns (err: int)
    requires t + 3 <= a.Length && t + SizeOfInfo(a[t + 1]) <= a.Length
    modifies a
    ensures err == if SizeOfInfo(old(a[t + 1])) >= 0 then 0 else EINVAL
    ensures SwappedIn(old(a[..]), a[..], t + 3, t + SizeOfInfo(old(a[t + 1])))
  {
    hide Bswap32, SwappedIn;
    ghost var ws := a[..];
    var kind, vlen := KindOfInfo(a[t + 1]), VlenOfInfo(a[t + 1]);
    NothingSwapped(ws, t + 3);
    if IsPlainRefKind(kind) || kind == KIND_FWD || kind == KIND_FLOAT { return 0; }
    if kind == KIND_INT || kind == KIND_VAR || kind == KIND_DECL_TAG {
      SwapWords(a, t + 3, 1);
      return 0;
    }
    if kind == KIND_ARRAY {
      SwapWords(a, t + 3, 3);
      return 0;
    }
    if !(kind in {KIND_ENUM, KIND_ENUM64, KIND_STRUCT, KIND_UNION, KIND_FUNC_PROTO, KIND_DATASEC}) {
      NoneSwapped(ws, t + 3, t + SizeOfInfo(a[t + 1]));
      return EINVAL;
    }
    SwapElems(a, t + 3, ElemWords(kind), vlen);
    err := 0;
  }

  /** The loops over members, parameters, enumerators and section variables. */
  method SwapElems(a: array<u32>, from: nat, words: nat, count: nat)
    requires 1 <= words <= 3 && from + words * count <= a.Length
    modifies a
    ensures SwappedIn(old(a[..]), a[..], from, from + words * count)
  {
    hide Bswap32, SwappedIn;
    ghost var ws := a[..];
    NothingSwapped(ws, from);
    var i, p := 0, from;
    while i < count
      invariant 0 <= i <= count && p == from + words * i
      invariant SwappedIn(ws, a[..], from, p)
    {
      ghost var was := a[..];
      assert words * (i + 1) <= words * count;
      SwapWords(a, p, words);
      SwappedMore(ws, was, a[..], from, p, p + words);
      p := p + words;
      i := i + 1;
    }
  }

  lemma NothingSwapped(ws: seq<u32>, from: nat)
    ensures SwappedIn(ws, ws, from, from)
  {
  }

  lemma NoneSwapped(ws: seq<u32>, from: nat, to: int)
    requires to <= from
    ensures SwappedIn(ws, ws, from, to)
  {
  }

  /** Swaps the words of one element. */
  method SwapWords(a: array<u32>, p: nat, n: nat)
    requires 1 <= n <= 3 && p + n <= a.Length
    modifies a
    ensures SwappedIn(old(a[..]), a[..], p, p + n)
  {
    hide Bswap32;
    a[p] := Bswap32(a[p]);
    if n > 1 { a[p + 1] := Bswap32(a[p + 1]); }
    if n > 2 { a[p + 2] := Bswap32(a[p + 2]); }
  }

  // ---- emitting ----

  /** The type data as `btf_get_raw_data` writes it, in the other byte order if asked to. */
  method EmitTypes(btf: Btf, swapEndian: bool) returns (data: array<u32>)
    requires btf.Valid()
    ensures fresh(data)
    ensures data[..] == if swapEndian then Swapped(btf.typesData[..btf.typeLen]) else btf.typesData[..btf.typeLen]
  {
    hide Bswap32, SwappedIn, Swapped, Start, Flat, SizeOfInfo, WfRec;
    ghost var own, ws := btf.own, btf.typesData[..btf.typeLen];
    data := new u32[btf.typeLen](k requires 0 <= k < btf.typeLen <= |btf.typesData| reads btf => btf.typesData[k]);
    assert data[..] == ws;
    if swapEndian {
      NothingSwapped(ws, 0);
      StartOfNone(own);
      var i := 0;
      while i < btf.nrTypes
        invariant 0 <= i <= btf.nrTypes && SwappedIn(ws, data[..], 0, Start(own, i))
      {
        EmitOne(data, btf.typeOffs[i], ws, own, i);
        i := i + 1;
      }
      StartLast(own);
      AllSwapped(ws, data[..]);
    }
  }

  lemma StartOfNone(own: seq<Rec>)
    ensures Start(own, 0) == 0
  {
    assert own[..0] == [];
  }

  lemma AllSwapped(ws: seq<u32>, now: seq<u32>)
    requires SwappedIn(ws, now, 0, |ws|)
    ensures now == Swapped(ws)
  {
  }

  /** Swaps the rest of a record while its info word still reads right, and then its base. */
  method EmitOne(data: array<u32>, t: nat, ghost ws: seq<u32>, ghost own: seq<Rec>, ghost i: nat)
    requires i < |own| && WfRec(own[i]) && ws == Flat(own) && t == Start(own, i) && SwappedIn(ws, data[..], 0, t)
    modifies data
    ensures SwappedIn(ws, data[..], 0, Start(own, i + 1))
  {
    hide Bswap32, Start, Flat, SizeOfInfo;
    ghost var n, was := |own[i]|, data[..];
    PartAt(own, i);
    StartNext(own, i);
    assert ws[t + 1] == ws[t..t + n][1] == own[i][1];
    assert data[t + 1] == was[t + 1] == ws[t + 1];
    var err := BswapTypeRest(data, t);
    ghost var rest := data[..];
    BswapTypeBase(data, t);
    SwappedBoth(was, rest, data[..], t, t + 3, t + n);
    SwappedMore(ws, was, data[..], 0, t, t + n);
  }

  // ---- parsing ----

  /** The words are these records, end to end. */
  ghost predicate Decodes(ws: seq<u32>, recs: seq<Rec>) {
    ws == Flat(recs) && forall i :: 0 <= i < |recs| ==> WfRec(recs[i])
  }

  /** A prefix of the words that decodes does so in one way only. */
  lemma {:induction false} DecodesOneWay(ws: seq<u32>, p: nat, recs: seq<Rec>, all: seq<Rec>)
    requires p <= |ws| && Decodes(ws[..p], recs) && Decodes(ws, all)
    ensures recs <= all && Start(all, |recs|) == p
    decreases |recs|
  {
    hide SizeOfInfo, Flat, Start;
    if recs == [] {
      StartOfNone(all);
      StartLast(recs);
      StartOfNone(recs);
    } else {
      var n := |recs| - 1;
      var init, last := recs[..n], recs[n];
      FlatSnoc(init, last);
      assert init + [last] == recs;
      var q := p - |last|;
      assert ws[..q] == Flat(init) && ws[q..p] == last;
      DecodesOneWay(ws, q, init, all);
      StartLast(all);
      if n < |all| {
        PartAt(all, n);
        StartNext(all, n);
        assert ws[q..q + |all[n]|] == all[n];
        assert ws[q + 1] == last[1] == all[n][1];
        assert recs == init + [last] && all[..n + 1] == all[..n] + [all[n]];
      }
    }
  }

  /** Where parsing stops before the end, the words decode in no way unless another record follows. */
  lemma NextRecord(ws: seq<u32>, p: nat, recs: seq<Rec>, all: seq<Rec>)
    requires p < |ws| && Decodes(ws[..p], recs) && Decodes(ws, all)
    ensures p + 3 <= |ws| && SizeOfInfo(ws[p + 1]) >= 3 && p + SizeOfInfo(ws[p + 1]) <= |ws|
  {
    hide SizeOfInfo;
    DecodesOneWay(ws, p, recs, all);
    if |recs| == |all| {
      StartLast(all);
    } else {
      PartAt(all, |recs|);
      var r := all[|recs|];
      assert ws[p..p + |r|] == r && ws[p..p + |r|][1] == ws[p + 1];
    }
  }

  function Native(ws: seq<u32>, swapped: bool): seq<u32> {
    if swapped then Swapped(ws) else ws
  }

  /** The state of parsing at word p. */
  ghost predicate Parsed(ws: seq<u32>, now: seq<u32>, swapped: bool, p: nat, recs: seq<Rec>, offs: seq<nat>) {
    && p <= |ws| && Decodes(Native(ws, swapped)[..p], recs)
    && |offs| == |recs| && (forall i :: 0 <= i < |recs| ==> offs[i] == Start(recs, i))
    && (if swapped then SwappedIn(ws, now, 0, p) else now == ws)
  }

  lemma ParsedNone(ws: seq<u32>, swapped: bool)
    ensures Parsed(ws, ws, swapped, 0, [], [])
  {
  }

  lemma ParsedNext(ws: seq<u32>, was: seq<u32>, now: seq<u32>, swapped: bool, p: nat, recs: seq<Rec>, offs: seq<nat>,
                   n: nat)
    requires Parsed(ws, was, swapped, p, recs, offs) && n >= 3 && p + n <= |ws|
    requires n == SizeOfInfo(Native(ws, swapped)[p + 1])
    requires if swapped then SwappedIn(was, now, p, p + n) else now == was
    ensures var r: Rec := Native(ws, swapped)[p..p + n]; Parsed(ws, now, swapped, p + n, recs + [r], offs + [p])
  {
    hide SizeOfInfo, Bswap32;
    var w := Native(ws, swapped);
    var r: Rec := w[p..p + n];
    FlatSnoc(recs, r);
    assert w[..p + n] == w[..p] + r;
    forall i | 0 <= i <= |recs|
      ensures i < |recs| ==> Start(recs + [r], i) == Start(recs, i)
    {
      assert i < |recs| ==> (recs + [r])[..i] == recs[..i];
    }
    StartLast(recs);
    assert (recs + [r])[..|recs|] == recs;
    if swapped {
      SwappedMore(ws, was, now, 0, p, p + n);
    }
  }

  lemma ParsedReads(ws: seq<u32>, now: seq<u32>, swapped: bool, p: nat, recs: seq<Rec>, offs: seq<nat>, after: seq<u32>)
    requires Parsed(ws, now, swapped, p, recs, offs) && p + 3 <= |now|
    requires if swapped then SwappedIn(now, after, p, p + 3) else after == now
    ensures |after| == |ws| && after[p + 1] == Native(ws, swapped)[p + 1]
  {
  }

  /** `btf_parse_type_sec`: the words of the type section come to read right, and are decoded if
      there is a way to. */
  method ParseTypeSec(a: array<u32>, swapped: bool) returns (err: int, offs: seq<nat>, ghost recs: seq<Rec>)
    modifies a
    ensures err in {0, EINVAL}
    ensures err == 0 ==> a[..] == Native(old(a[..]), swapped) && Decodes(a[..], recs)
    ensures err == 0 ==> |offs| == |recs| && forall i :: 0 <= i < |recs| ==> offs[i] == Start(recs, i)
    ensures err != 0 ==> forall rs: seq<Rec> :: !Decodes(Native(old(a[..]), swapped), rs)
  {
    hide Bswap32, SwappedIn, Swapped, Start, Flat, SizeOfInfo, Parsed, Decodes;
    ghost var ws := a[..];
    var p := 0;
    offs, recs := [], [];
    ParsedNone(ws, swapped);
    while p + 3 <= a.Length
      invariant p <= a.Length && Parsed(ws, a[..], swapped, p, recs, offs)
    {
      ghost var r;
      var n;
      err, n, r := ParseOne(a, swapped, p, ws, recs, offs);
      if err != 0 { return; }
      offs, recs := offs + [p], recs + [r];
      p := p + n;
    }
    if p != a.Length {
      Undecodable(ws, a[..], swapped, p, recs, offs);
      return EINVAL, offs, recs;
    }
    ParsedAll(ws, a[..], swapped, recs, offs);
    err := 0;
  }

  lemma ParsedAll(ws: seq<u32>, now: seq<u32>, swapped: bool, recs: seq<Rec>, offs: seq<nat>)
    requires Parsed(ws, now, swapped, |ws|, recs, offs)
    ensures now == Native(ws, swapped) && Decodes(now, recs) && |offs| == |recs|
    ensures forall i :: 0 <= i < |recs| ==> offs[i] == Start(recs, i)
  {
    assert Native(ws, swapped)[..|ws|] == Native(ws, swapped);
  }

  /** No record can start at p. */
  lemma Undecodable(ws: seq<u32>, now: seq<u32>, swapped: bool, p: nat, recs: seq<Rec>, offs: seq<nat>)
    requires Parsed(ws, now, swapped, p, recs, offs) && p < |ws|
    requires p + 3 <= |ws| ==> var n := SizeOfInfo(Native(ws, swapped)[p + 1]); n < 0 || p + n > |ws|
    ensures forall rs: seq<Rec> :: !Decodes(Native(ws, swapped), rs)
  {
    forall rs: seq<Rec>
      ensures !Decodes(Native(ws, swapped), rs)
    {
      if Decodes(Native(ws, swapped), rs) {
        NextRecord(Native(ws, swapped), p, recs, rs);
      }
    }
  }

  /** One turn of the loop of `btf_parse_type_sec`. */
  method ParseOne(a: array<u32>, swapped: bool, p: nat, ghost ws: seq<u32>, ghost recs: seq<Rec>, ghost offs: seq<nat>)
    returns (err: int, n: nat, ghost r: Rec)
    requires p + 3 <= a.Length && Parsed(ws, a[..], swapped, p, recs, offs)
    modifies a
    ensures err in {0, EINVAL} && p + n <= a.Length
    ensures err == 0 ==> n >= 3 && Parsed(ws, a[..], swapped, p + n, recs + [r], offs + [p])
    ensures err != 0 ==> forall rs: seq<Rec> :: !Decodes(Native(ws, swapped), rs)
  {
    hide Bswap32, SwappedIn, Swapped, Start, Flat, SizeOfInfo, Parsed, Decodes;
    ghost var was := a[..];
    r, n := VOID, 0;
    if swapped { BswapTypeBase(a, p); }
    ParsedReads(ws, was, swapped, p, recs, offs, a[..]);
    var size := SizeOfInfo(a[p + 1]);
    if size < 0 || p + size > a.Length {
      Undecodable(ws, was, swapped, p, recs, offs);
      return EINVAL, 0, r;
    }
    SizeAtLeastThree(a[p + 1]);
    if swapped {
      ghost var base := a[..];
      err := BswapTypeRest(a, p);
      if err != 0 { return; }
      SwappedMore(was, base, a[..], p, p + 3, p + size);
    }
    n := size;
    r := Native(ws, swapped)[p..p + n];
    ParsedNext(ws, was, a[..], swapped, p, recs, offs, n);
    err := 0;
  }

  lemma SizeAtLeastThree(info: u32)
    ensures SizeOfInfo(info) >= 0 ==> SizeOfInfo(info) >= 3
  {
  }

  // ---- whole blobs ----

  /** The magic number is there in the other byte order. */
  predicate OtherOrder(b: seq<Byte>)
    requires |b| >= HDR_SZ
  {
    Load16Big(b, 0) == BTF_MAGIC
  }

  /** The header and the words as the byte order of the data asks to read them. */
  function HdrOf(b: seq<Byte>): Header
    requires |b| >= HDR_SZ
  {
    if OtherOrder(b) then LoadHdrBig(b) else LoadHdr(b)
  }

  function WordsOf(b: seq<Byte>, other: bool): seq<u32>
    requires |b| % 4 == 0
  {
    if other then LoadWordsBig(b) else LoadWords(b)
  }

  /** They are what reading in the order of the host and swapping gives. */
  lemma ReadInOrder(b: seq<Byte>)
    requires |b| >= HDR_SZ
    ensures OtherOrder(b) <==> LoadHdr(b).magic == Bswap16(BTF_MAGIC)
    ensures HdrOf(b) == if OtherOrder(b) then BswapHdr(LoadHdr(b)) else LoadHdr(b)
  {
    BswapLoads(b, 0);
    Bswap16Twice(LoadHdr(b).magic);
    Bswap16Twice(BTF_MAGIC);
    BswapHdrLoads(b);
    hide Bswap16, Bswap32, Load16, Load32, Load16Big, Load32Big;
  }

  lemma WordsInOrder(b: seq<Byte>, other: bool)
    requires |b| % 4 == 0
    ensures WordsOf(b, other) == Native(LoadWords(b), other)
  {
    forall i | 0 <= i < |b| / 4
      ensures LoadWordsBig(b)[i] == Swapped(LoadWords(b))[i]
    {
      BswapLoads(b, 4 * i);
    }
  }

  /** The words written in either byte order. */
  function BytesOfWords(ws: seq<u32>, other: bool): (b: seq<Byte>)
    ensures |b| == 4 * |ws|
  {
    if other then StoreWordsBig(ws) else StoreWords(ws)
  }

  lemma {:induction false} WordsWritten(ws: seq<u32>, other: bool)
    ensures BytesOfWords(ws, other) == StoreWords(Native(ws, other))
    decreases |ws|
  {
    if other && ws != [] {
      var init, last := ws[..|ws| - 1], ws[|ws| - 1];
      WordsWritten(init, other);
      BswapStores(last, 0);
      hide Bswap32, Store32, Store32Big;
      var all := Swapped(ws);
      assert all[..|ws| - 1] == Swapped(init) && all[|ws| - 1] == Bswap32(last);
    }
  }

  function HdrBytes(h: Header, other: bool): (b: seq<Byte>)
    ensures |b| == HDR_SZ
  {
    if other then StoreHdrBig(h) else StoreHdr(h)
  }

  lemma HdrWritten(h: Header, other: bool)
    ensures HdrBytes(h, other) == StoreHdr(if other then BswapHdr(h) else h)
  {
    hide BswapHdr, StoreHdr, StoreHdrBig;
    BswapHdrStores(h);
  }

  /** A loaded table: the header, the bytes of it that libbpf has no name for, types and strings. */
  datatype Table = Table(hdr: Header, extra: seq<Byte>, recs: seq<Rec>, strs: seq<Byte>)

  /** The header describes the data, and a foreign one has the standard length. */
  predicate HeaderOk(b: seq<Byte>) {
    && |b| >= HDR_SZ && var h := HdrOf(b);
    && HeaderFits(h, |b|) && (OtherOrder(b) ==> h.hdrLen == HDR_SZ)
  }

  /** The type section. */
  function TypeBytes(b: seq<Byte>, h: Header): seq<Byte>
    requires h.hdrLen + h.typeOff + h.typeLen <= |b|
  {
    b[h.hdrLen + h.typeOff..h.hdrLen + h.typeOff + h.typeLen]
  }

  function StrBytes(b: seq<Byte>, h: Header): seq<Byte>
    requires h.hdrLen + h.strOff + h.strLen <= |b|
  {
    b[h.hdrLen + h.strOff..h.hdrLen + h.strOff + h.strLen]
  }

  /** What the header holds behind its standard part. */
  function ExtraBytes(b: seq<Byte>, h: Header): seq<Byte>
    requires h.hdrLen <= |b|
  {
    if h.hdrLen > HDR_SZ then b[HDR_SZ..h.hdrLen] else []
  }

  /** What is parsed out of BTF data, said without parsing: every field and every word is read in
      the byte order of the data. */
  ghost predicate Holds(b: seq<Byte>, t: Table, hasBase: bool) {
    && HeaderOk(b) && t.hdr == HdrOf(b) && t.hdr.typeLen % 4 == 0
    && t.extra == ExtraBytes(b, t.hdr) && Decodes(WordsOf(TypeBytes(b, t.hdr), OtherOrder(b)), t.recs)
    && t.strs == StrBytes(b, t.hdr) && StrSecOk(t.strs, hasBase)
  }

  ghost predicate HoldsNothing(b: seq<Byte>, hasBase: bool) {
    forall t :: !Holds(b, t, hasBase)
  }

  /** `btf_new`: the table that the data holds, if it holds one. */
  method Parse(b: seq<Byte>, hasBase: bool, base: seq<Rec>)
    returns (err: int, btf: Btf?, hdr: Header, extra: seq<Byte>, strs: seq<Byte>)
    requires |base| > 0 && base[0] == VOID && (!hasBase ==> |base| == 1)
    ensures err == 0 ==> && btf != null && btf.Valid() && btf.hasBase == hasBase && btf.base == base
                         && Holds(b, Table(hdr, extra, btf.own, strs), hasBase)
    ensures err != 0 ==> HoldsNothing(b, hasBase)
  {
    hide Bswap32, Bswap16, Decodes, Swapped, Native, SizeOfInfo, WfRec, Start, TypeBytes, ExtraBytes, StrBytes,
      StrSecOk, LoadHdr, HdrOf, LoadWords, WordsOf, OtherOrder;
    btf, extra, strs, hdr := null, [], [], ZERO_HDR;
    if |b| < HDR_SZ { return EINVAL, null, hdr, extra, strs; }
    ReadInOrder(b);
    var swapped;
    err, hdr, swapped := ParseHdr(LoadHdr(b), |b|);
    if err != 0 { return; }
    extra, strs := ExtraBytes(b, hdr), StrBytes(b, hdr);
    if !StrSecOk(strs, hasBase) { return EINVAL, null, hdr, extra, strs; }
    if hdr.typeLen % 4 != 0 { return EINVAL, null, hdr, extra, strs; }
    assert |TypeBytes(b, hdr)| == hdr.typeLen by { TypeBytesFit(b, hdr); }
    var ws := LoadWords(TypeBytes(b, hdr));
    WordsInOrder(TypeBytes(b, hdr), swapped);
    var a := new u32[|ws|](k requires 0 <= k < |ws| => ws[k]);
    assert a[..] == ws;
    var offs;
    ghost var recs;
    err, offs, recs := ParseTypeSec(a, swapped);
    if err != 0 { return; }
    DecodesParts(a[..], recs);
    btf := new Btf(hasBase, base, a[..], offs, recs);
  }

  lemma TypeBytesFit(b: seq<Byte>, h: Header)
    requires h.hdrLen + h.typeOff + h.typeLen <= |b|
    ensures |TypeBytes(b, h)| == h.typeLen
  {
  }

  const ZERO_HDR: Header := Header(0, 0, 0, 0, 0, 0, 0, 0)

  lemma DecodesParts(ws: seq<u32>, recs: seq<Rec>)
    requires Decodes(ws, recs)
    ensures ws == Flat(recs) && forall i :: 0 <= i < |recs| ==> WfRec(recs[i])
  {
  }

  /** `btf_get_raw_data`: the header as it is, and types and strings directly behind it. */
  method GetRawData(btf: Btf, hdr: Header, extra: seq<Byte>, strs: seq<Byte>, swapEndian: bool) returns (b: seq<Byte>)
    requires btf.Valid() && hdr.hdrLen == HDR_SZ + |extra| && hdr.typeLen == 4 * btf.typeLen && hdr.strLen == |strs|
    ensures b == Emitted(Table(hdr, extra, btf.own, strs), swapEndian)
  {
    hide StoreWords, StoreWordsBig, StoreHdr, StoreHdrBig, BswapHdr, Bswap32, Swapped;
    WordsWritten(Flat(btf.own), swapEndian);
    HdrWritten(hdr, swapEndian);
    var data := EmitTypes(btf, swapEndian);
    b := StoreHdr(if swapEndian then BswapHdr(hdr) else hdr) + extra + StoreWords(data[..]) + strs;
  }

  /** A table written in either byte order. */
  ghost function Emitted(t: Table, other: bool): seq<Byte> {
    HdrBytes(t.hdr, other) + t.extra + BytesOfWords(Flat(t.recs), other) + t.strs
  }

  /** What `btf_new` has accepted, or `btf__new_empty` and its successors have built. */
  ghost predicate WfTable(t: Table, hasBase: bool) {
    && t.hdr.magic == BTF_MAGIC && t.hdr.hdrLen == HDR_SZ + |t.extra| && t.hdr.typeOff % 4 == 0
    && t.hdr.typeOff + t.hdr.typeLen <= t.hdr.strOff && t.hdr.typeLen == 4 * |Flat(t.recs)| && t.hdr.strLen == |t.strs|
    && StrSecOk(t.strs, hasBase) && forall i :: 0 <= i < |t.recs| ==> WfRec(t.recs[i])
  }

  /** Emitting a table in either byte order and parsing it again gives the table back, and nothing
      else, exactly when its header puts the strings directly behind the types and, for the other
      byte order, has the standard length; otherwise what was emitted cannot be parsed at all. */
  lemma RoundTrip(t: Table, hasBase: bool, swapEndian: bool)
    requires WfTable(t, hasBase)
    ensures var b := Emitted(t, swapEndian);
            if t.hdr.strOff == t.hdr.typeLen && (swapEndian ==> t.hdr.hdrLen == HDR_SZ)
            then forall u :: Holds(b, u, hasBase) <==> u == t
            else HoldsNothing(b, hasBase)
  {
    hide Bswap32, Flat, SizeOfInfo, WfRec, Bswap16, HdrOf, OtherOrder, WordsOf, BytesOfWords, HdrBytes, TypeBytes,
      ExtraBytes, StrBytes, StrSecOk, LoadWords, LoadWordsBig;
    var b := Emitted(t, swapEndian);
    EmittedHeader(t, swapEndian);
    if t.hdr.strOff == t.hdr.typeLen && (swapEndian ==> t.hdr.hdrLen == HDR_SZ) {
      EmittedParts(t, swapEndian);
      var ws := Flat(t.recs);
      forall u
        ensures Holds(b, u, hasBase) <==> u == t
      {
        if Holds(b, u, hasBase) {
          OneDecoding(ws, t.recs, u.recs);
        }
      }
    }
  }

  lemma WordsRoundTrip(ws: seq<u32>, other: bool)
    ensures WordsOf(BytesOfWords(ws, other), other) == ws
  {
    hide StoreWords, StoreWordsBig, LoadWords, LoadWordsBig, Swapped;
    WordsWritten(ws, other);
    WordsInOrder(BytesOfWords(ws, other), other);
    LoadStored(Native(ws, other));
    SwappedTwice(ws);
  }

  lemma OneDecoding(ws: seq<u32>, recs: seq<Rec>, others: seq<Rec>)
    requires Decodes(ws, recs) && Decodes(ws, others)
    ensures recs == others
  {
    hide SizeOfInfo, Flat, Start;
    assert ws[..|ws|] == ws;
    DecodesOneWay(ws, |ws|, recs, others);
    StartLast(others);
    SameFlat(recs, others);
  }

  lemma MagicIsAsymmetric()
    ensures Bswap16(BTF_MAGIC) != BTF_MAGIC && Bswap16(Bswap16(BTF_MAGIC)) == BTF_MAGIC
  {
  }

  /** The header of what was emitted reads as the table's, and describes the data exactly when the
      strings follow the types. */
  lemma EmittedHeader(t: Table, swapEndian: bool)
    requires t.hdr.magic == BTF_MAGIC && t.hdr.hdrLen == HDR_SZ + |t.extra| && t.hdr.typeOff % 4 == 0
    requires t.hdr.typeOff + t.hdr.typeLen <= t.hdr.strOff && t.hdr.typeLen == 4 * |Flat(t.recs)|
    requires t.hdr.strLen == |t.strs|
    ensures var b := Emitted(t, swapEndian);
            && |b| >= HDR_SZ && HdrOf(b) == t.hdr && (OtherOrder(b) <==> swapEndian)
            && (HeaderFits(t.hdr, |b|) <==> t.hdr.strOff == t.hdr.typeLen)
  {
    hide Bswap32, Flat, Bswap16, BytesOfWords, StoreHdr, StoreHdrBig, LoadHdr, LoadHdrBig, HdrOf, OtherOrder;
    MagicIsAsymmetric();
    BswapHdrTwice(t.hdr);
    HdrWritten(t.hdr, swapEndian);
    var b := Emitted(t, swapEndian);
    ReadInOrder(b);
    LoadStoredHdr(if swapEndian then BswapHdr(t.hdr) else t.hdr, b);
  }

  lemma EmittedParts(t: Table, swapEndian: bool)
    requires t.hdr.hdrLen == HDR_SZ + |t.extra| && t.hdr.typeOff == 0 && t.hdr.strOff == t.hdr.typeLen
    requires t.hdr.typeLen == 4 * |Flat(t.recs)| && t.hdr.strLen == |t.strs|
    ensures var b, h := Emitted(t, swapEndian), t.hdr;
            && h.hdrLen + h.strOff + h.strLen == |b| && |TypeBytes(b, h)| % 4 == 0
            && WordsOf(TypeBytes(b, h), swapEndian) == Flat(t.recs) && ExtraBytes(b, h) == t.extra
            && StrBytes(b, h) == t.strs
  {
    hide Bswap32, Flat, BytesOfWords, HdrBytes, WordsOf, LoadWords, BswapHdr;
    var b, h := Emitted(t, swapEndian), t.hdr;
    assert TypeBytes(b, h) == BytesOfWords(Flat(t.recs), swapEndian);
    WordsRoundTrip(Flat(t.recs), swapEndian);
  }

  /** A longer list of records has more words. */
  lemma SameFlat(a: seq<Rec>, b: seq<Rec>)
    requires a <= b && |Flat(a)| == |Flat(b)|
    ensures a == b
  {
    assert a == b[..|a|];
    if |a| < |b| {
      PartAt(b, |a|);
    }
  }

  // ---- a table byte by byte ----

  /** The smallest table there is a type in: one int without a name. */
  const ONE_INT: Table := Table(Header(BTF_MAGIC, 1, 0, HDR_SZ, 0, 16, 16, 1), [], [[0, 0x100_0000, 4, 32]], [0])

  const ONE_INT_BYTES: seq<Byte> :=
    [0x9f, 0xeb, 1, 0, 24, 0, 0, 0, 0, 0, 0, 0, 16, 0, 0, 0, 16, 0, 0, 0, 1, 0, 0, 0] + []
    + ([0, 0, 0, 0] + [0, 0, 0, 1] + [4, 0, 0, 0] + [32, 0, 0, 0]) + [0]

  const ONE_INT_BYTES_BIG: seq<Byte> :=
    [0xeb, 0x9f, 1, 0, 0, 0, 0, 24, 0, 0, 0, 0, 0, 0, 0, 16, 0, 0, 0, 16, 0, 0, 0, 1] + []
    + ([0, 0, 0, 0] + [1, 0, 0, 0] + [0, 0, 0, 4] + [0, 0, 0, 32]) + [0]

  /** What is written for it in either byte order, byte by byte. */
  lemma OneIntEmitted()
    ensures WfTable(ONE_INT, false)
    ensures Emitted(ONE_INT, false) == ONE_INT_BYTES && Emitted(ONE_INT, true) == ONE_INT_BYTES_BIG
  {
    var r: Rec := [0, 0x100_0000, 4, 32];
    var none: seq<Rec> := [];
    FlatSnoc(none, r);
    assert none + [r] == ONE_INT.recs && Flat(none) == [] && WfRec(r);
    assert Flat(ONE_INT.recs) == r;
    hide Flat;
    HeaderBytes(1, 0, 24, 0, 16, 16, 1);
    SmallStored(0);
    SmallStored(4);
    SmallStored(32);
    assert Store32(0x100_0000) == [0, 0, 0, 1] && Store32Big(0x100_0000) == [1, 0, 0, 0];
    FourStored(0, 0x100_0000, 4, 32);
    hide StoreWords, StoreWordsBig, Store32, Store32Big, StoreHdr, StoreHdrBig;
  }

  /** Every field of a header has its place, and in the other byte order its bytes turned round. */
  lemma HeaderBytes(version: Byte, flags: Byte, hdrLen: Byte, typeOff: Byte, typeLen: Byte, strOff: Byte, strLen: Byte)
    ensures var h := Header(BTF_MAGIC, version, flags, hdrLen, typeOff, typeLen, strOff, strLen);
            && StoreHdr(h) == [0x9f, 0xeb, version, flags, hdrLen, 0, 0, 0, typeOff, 0, 0, 0, typeLen, 0, 0, 0,
                               strOff, 0, 0, 0, strLen, 0, 0, 0]
            && StoreHdrBig(h) == [0xeb, 0x9f, version, flags, 0, 0, 0, hdrLen, 0, 0, 0, typeOff, 0, 0, 0, typeLen,
                                  0, 0, 0, strOff, 0, 0, 0, strLen]
  {
    MagicStored();
    SmallStored(hdrLen);
    SmallStored(typeOff);
    SmallStored(typeLen);
    SmallStored(strOff);
    SmallStored(strLen);
    hide Store32, Store32Big, Store16, Store16Big;
  }

  lemma MagicStored()
    ensures Store16(BTF_MAGIC) == [0x9f, 0xeb] && Store16Big(BTF_MAGIC) == [0xeb, 0x9f]
  {
  }

  lemma SmallStored(x: Byte)
    ensures Store32(x) == [x, 0, 0, 0] && Store32Big(x) == [0, 0, 0, x]
  {
  }

  lemma StoreSnoc(ws: seq<u32>, x: u32)
    ensures StoreWords(ws + [x]) == StoreWords(ws) + Store32(x)
    ensures StoreWordsBig(ws + [x]) == StoreWordsBig(ws) + Store32Big(x)
  {
    assert (ws + [x])[..|ws|] == ws;
  }

  lemma FourStored(a: u32, b: u32, c: u32, d: u32)
    ensures StoreWords([a, b, c, d]) == Store32(a) + Store32(b) + Store32(c) + Store32(d)
    ensures StoreWordsBig([a, b, c, d]) == Store32Big(a) + Store32Big(b) + Store32Big(c) + Store32Big(d)
  {
    StoreSnoc([], a);
    StoreSnoc([a], b);
    StoreSnoc([a, b], c);
    StoreSnoc([a, b, c], d);
    hide Store32, Store32Big;
    assert [] + [a] == [a] && [a] + [b] == [a, b] && [a, b] + [c] == [a, b, c] && [a, b, c] + [d] == [a, b, c, d];
  }
}
