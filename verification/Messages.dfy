/** FUSE 7.38 wire structures, as the `repr(C)` layouts of filesystem_message.rs on a
    little-endian host: encoders for replies, field readers for requests, the
    directory record stream and its decoder. */
module Messages {
  import opened GuestMemory
  import opened Chain

  // ---- integers -----------------------------------------------------------

  function Pow256(k: nat): (r: nat)
    ensures r > 0
  {
    if k == 0 then 1 else 256 * Pow256(k - 1)
  }

  /** n truncated to k bytes, least significant first: an `as u32` or `as u64` cast
      followed by the byte layout. */
  function LE(n: nat, k: nat): (r: Bytes)
    ensures |r| == k
  {
    if k == 0 then [] else [(n % 256) as u8] + LE(n / 256, k - 1)
  }

  function UnLE(b: Bytes): nat {
    if b == [] then 0 else b[0] as nat + 256 * UnLE(b[1..])
  }

  lemma MulAtLeast(m: nat, k: int)
    ensures k >= 1 ==> m * k >= m
    ensures k <= -1 ==> m * k + m <= 0
  {
  }

  lemma ModUnique(a: nat, m: nat, q: nat, r: nat)
    requires m > 0 && a == m * q + r && r < m
    ensures a % m == r
  {
    var p, s := a / m, a % m;
    assert m * (p - q) == r - s by {
      assert a == m * p + s;
      assert m * (p - q) == m * p - m * q;
    }
    MulAtLeast(m, p - q);
  }

  lemma ModStep(n: nat, p: nat)
    requires p > 0
    ensures n % (256 * p) == n % 256 + 256 * ((n / 256) % p)
  {
    var h := n / 256;
    var q, r := h / p, h % p;
    assert 256 * h == (256 * p) * q + 256 * r by {
      assert h == p * q + r;
      assert 256 * (p * q) == (256 * p) * q;
    }
    ModUnique(n, 256 * p, q, 256 * r + n % 256);
  }

  lemma {:induction false} UnLEOfLE(n: nat, k: nat)
    ensures UnLE(LE(n, k)) == n % Pow256(k)
  {
    if k > 0 {
      UnLEOfLE(n / 256, k - 1);
      ModStep(n, Pow256(k - 1));
      assert LE(n, k)[1..] == LE(n / 256, k - 1);
    }
  }

  /** Byte i of an encoded integer is its i-th base-256 digit: least significant first. */
  lemma {:induction false} LittleEndian(n: nat, k: nat, i: nat)
    requires i < k
    ensures LE(n, k)[i] as nat == n / Pow256(i) % 256
  {
    if i > 0 {
      LittleEndian(n / 256, k - 1, i - 1);
      DivTwice(n, Pow256(i - 1));
    }
  }

  lemma DivTwice(n: nat, p: nat)
    requires p > 0
    ensures n / 256 / p == n / (256 * p)
  {
    var q, r := n / 256, n % 256;
    var h, l := q / p, q % p;
    var ph := p * h;
    assert n == 256 * ph + 256 * l + r;
    assert 256 * ph == (256 * p) * h;
    DivUnique(n, 256 * p, h, 256 * l + r);
  }

  lemma DivUnique(n: nat, m: nat, q: nat, r: nat)
    requires m > 0 && n == m * q + r && r < m
    ensures n / m == q
  {
    ModUnique(n, m, q, r);
    assert m * (n / m - q) == 0;
    MulAtLeast(m, n / m - q);
  }

  const U32: nat := 0x1_0000_0000
  const U64: nat := 0x1_0000_0000_0000_0000

  lemma Widths()
    ensures Pow256(4) == U32 && Pow256(8) == U64
  {
    assert Pow256(2) == 65536;
    assert Pow256(3) == 16777216;
    assert Pow256(4) == U32;
    assert Pow256(5) == 256 * U32;
    assert Pow256(6) == 65536 * U32;
    assert Pow256(7) == 16777216 * U32;
  }

  /** The k-byte integer at offset `at`. */
  function Field(b: Bytes, at: nat, k: nat): nat
    requires at + k <= |b|
  {
    UnLE(b[at..at + k])
  }

  lemma FieldOfLE(before: Bytes, n: nat, k: nat, after: Bytes)
    ensures Field(before + LE(n, k) + after, |before|, k) == n % Pow256(k)
  {
    assert (before + LE(n, k) + after)[|before|..|before| + k] == LE(n, k);
    UnLEOfLE(n, k);
  }

  function Zeros(n: nat): (r: Bytes)
    ensures |r| == n
  {
    seq(n, _ => 0)
  }

  // ---- OutHeader ----------------------------------------------------------

  const OUT_HEADER_SIZE: nat := 16

  /** `error` is an i32: zero or a negated errno. */
  function OutHeader(len: nat, errno: nat, unique: nat): (r: Bytes)
    ensures |r| == OUT_HEADER_SIZE
  {
    LE(len, 4) + LE(if errno == 0 then 0 else U32 - errno % U32, 4) + LE(unique, 8)
  }

  function HeaderLen(b: Bytes): nat requires |b| >= 16 { Field(b, 0, 4) }
  function HeaderError(b: Bytes): nat requires |b| >= 16 { Field(b, 4, 4) }
  function HeaderUnique(b: Bytes): nat requires |b| >= 16 { Field(b, 8, 8) }

  /** What a guest reads from the first 16 bytes of a reply. */
  lemma OutHeaderFields(len: nat, errno: nat, unique: nat, rest: Bytes)
    requires errno < U32
    ensures var b := OutHeader(len, errno, unique) + rest;
      && HeaderLen(b) == len % U32
      && HeaderError(b) == (U32 - errno) % U32
      && HeaderUnique(b) == unique % U64
  {
    hide LE;
    hide UnLE;
    hide Pow256;
    Widths();
    var e := if errno == 0 then 0 else U32 - errno % U32;
    var x, y, z := LE(len, 4), LE(e, 4), LE(unique, 8);
    var b := OutHeader(len, errno, unique) + rest;
    assert b == [] + x + (y + z + rest);
    FieldOfLE([], len, 4, y + z + rest);
    assert b == x + y + (z + rest);
    FieldOfLE(x, e, 4, z + rest);
    assert b == (x + y) + z + rest;
    FieldOfLE(x + y, unique, 8, rest);
  }

  // ---- reply bodies -------------------------------------------------------

  const KERNEL_VERSION: nat := 7
  const KERNEL_MINOR_VERSION: nat := 38
  const MIN_KERNEL_MINOR_VERSION: nat := 27
  const BUFFER_HEADER_SIZE: nat := 4096
  const MAX_BUFFER_SIZE: nat := 0x10_0000
  const DEFAULT_TTL: nat := 1
  const DEFAULT_GID: nat := 1000
  const DEFAULT_UID: nat := 1000
  const DEFAULT_DIR_NLINK: nat := 2
  const DEFAULT_FILE_NLINK: nat := 1
  const DIR_MODE: nat := 0x4000 + 0x1ED   // S_IFDIR | 0o755
  const FILE_MODE: nat := 0x8000 + 0x1ED  // S_IFREG | 0o755

  /** The fields of `Attr` that vary; the others are constants or zero. */
  datatype Attr = Attr(ino: nat, size: nat, isDir: bool)

  function AttrBytes(a: Attr): (r: Bytes)
    ensures |r| == 88
  {
    LE(a.ino, 8) + LE(a.size, 8) + Zeros(44)
    + LE(if a.isDir then DIR_MODE else FILE_MODE, 4)
    + LE(if a.isDir then DEFAULT_DIR_NLINK else DEFAULT_FILE_NLINK, 4)
    + LE(DEFAULT_UID, 4) + LE(DEFAULT_GID, 4) + Zeros(12)
  }

  datatype Body =
    | NoBody
    | InitBody
    | EntryBody(attr: Attr)
    | AttrBody(attr: Attr)
    | CreateBody(attr: Attr)
    | OpenBody
    | WriteBody(size: nat)

  function EntryOut(a: Attr): (r: Bytes)
    ensures |r| == 128
  {
    LE(a.ino, 8) + Zeros(8) + LE(DEFAULT_TTL, 8) + LE(DEFAULT_TTL, 8) + Zeros(8) + AttrBytes(a)
  }

  function AttrOut(a: Attr): (r: Bytes)
    ensures |r| == 104
  {
    LE(DEFAULT_TTL, 8) + Zeros(8) + AttrBytes(a)
  }

  function InitOut(): (r: Bytes)
    ensures |r| == 64
  {
    LE(KERNEL_VERSION, 4) + LE(KERNEL_MINOR_VERSION, 4) + Zeros(12) + LE(MAX_BUFFER_SIZE, 4) + Zeros(40)
  }

  function OpenOut(): Bytes { Zeros(16) }

  function WriteOut(size: nat): Bytes { LE(size, 4) + Zeros(4) }

  /** The `out` structure of a reply and the extra data after it. */
  function BodyParts(body: Body): (Option<Bytes>, Option<Bytes>) {
    match body
    case NoBody => (None, None)
    case InitBody => (Some(InitOut()), None)
    case EntryBody(a) => (Some(EntryOut(a)), None)
    case AttrBody(a) => (Some(AttrOut(a)), None)
    case CreateBody(a) => (Some(EntryOut(a)), Some(OpenOut()))
    case OpenBody => (Some(OpenOut()), None)
    case WriteBody(size) => (Some(WriteOut(size)), None)
  }

  function OrEmpty(part: Option<Bytes>): Bytes {
    match part
    case None => []
    case Some(b) => b
  }

  function BodyBytes(body: Body): (r: Bytes)
    ensures |r| <= 144
  {
    OrEmpty(BodyParts(body).0) + OrEmpty(BodyParts(body).1)
  }

  /** The attributes a guest reads at offset `at` of a reply body. */
  datatype GuestAttr = GuestAttr(ino: nat, size: nat, mode: nat, nlink: nat, uid: nat, gid: nat)

  function ReadAttr(b: Bytes, at: nat): GuestAttr
    requires at + 88 <= |b|
  {
    GuestAttr(Field(b, at, 8), Field(b, at + 8, 8), Field(b, at + 60, 4),
              Field(b, at + 64, 4), Field(b, at + 68, 4), Field(b, at + 72, 4))
  }

  lemma AttrParts(before: Bytes, i: Bytes, s: Bytes, z: Bytes, m: Bytes, l: Bytes, u: Bytes, g: Bytes, tail: Bytes)
    requires |i| == 8 && |s| == 8 && |z| == 44 && |m| == 4 && |l| == 4 && |u| == 4 && |g| == 4
    ensures var b := before + (i + s + z + m + l + u + g + tail);
            var at := |before|;
      && b[at..at + 8] == i && b[at + 8..at + 16] == s && b[at + 60..at + 64] == m
      && b[at + 64..at + 68] == l && b[at + 68..at + 72] == u && b[at + 72..at + 76] == g
  {
  }

  /** Directories and files reach the guest with their inode, size, mode and links. */
  lemma AttrRoundTrip(before: Bytes, a: Attr, rest: Bytes)
    ensures ReadAttr(before + (AttrBytes(a) + rest), |before|) ==
              GuestAttr(a.ino % U64, a.size % U64,
                        if a.isDir then DIR_MODE else FILE_MODE,
                        if a.isDir then DEFAULT_DIR_NLINK else DEFAULT_FILE_NLINK,
                        DEFAULT_UID, DEFAULT_GID)
  {
    hide LE;
    hide UnLE;
    hide Pow256;
    Widths();
    var mode := if a.isDir then DIR_MODE else FILE_MODE;
    var nlink := if a.isDir then DEFAULT_DIR_NLINK else DEFAULT_FILE_NLINK;
    var i, s, m, l := LE(a.ino, 8), LE(a.size, 8), LE(mode, 4), LE(nlink, 4);
    var u, g := LE(DEFAULT_UID, 4), LE(DEFAULT_GID, 4);
    AttrParts(before, i, s, Zeros(44), m, l, u, g, Zeros(12) + rest);
    assert AttrBytes(a) + rest == i + s + Zeros(44) + m + l + u + g + (Zeros(12) + rest);
    UnLEOfLE(a.ino, 8);
    UnLEOfLE(a.size, 8);
    UnLEOfLE(mode, 4);
    UnLEOfLE(nlink, 4);
    UnLEOfLE(DEFAULT_UID, 4);
    UnLEOfLE(DEFAULT_GID, 4);
  }

  /** Where entry and attribute replies carry their attributes. */
  lemma BodyAttr(a: Attr, rest: Bytes)
    ensures ReadAttr(EntryOut(a) + rest, 40) == ReadAttr(AttrOut(a) + rest, 16)
    ensures ReadAttr(AttrOut(a) + rest, 16) ==
              GuestAttr(a.ino % U64, a.size % U64,
                        if a.isDir then DIR_MODE else FILE_MODE,
                        if a.isDir then DEFAULT_DIR_NLINK else DEFAULT_FILE_NLINK,
                        DEFAULT_UID, DEFAULT_GID)
  {
    hide LE;
    hide AttrBytes;
    hide ReadAttr;
    var e := LE(a.ino, 8) + Zeros(8) + LE(DEFAULT_TTL, 8) + LE(DEFAULT_TTL, 8) + Zeros(8);
    var t := LE(DEFAULT_TTL, 8) + Zeros(8);
    AttrRoundTrip(e, a, rest);
    AttrRoundTrip(t, a, rest);
    assert EntryOut(a) + rest == e + (AttrBytes(a) + rest);
    assert AttrOut(a) + rest == t + (AttrBytes(a) + rest);
  }

  lemma EntryNodeid(a: Attr, rest: Bytes)
    ensures Field(EntryOut(a) + rest, 0, 8) == a.ino % U64
  {
    hide LE, UnLE, Pow256, AttrBytes;
    Widths();
    var tail := EntryOut(a)[8..] + rest;
    assert EntryOut(a) + rest == [] + LE(a.ino, 8) + tail;
    FieldOfLE([], a.ino, 8, tail);
  }

  lemma {:induction false} UnLEOfZeros(k: nat)
    ensures UnLE(Zeros(k)) == 0
  {
    if k > 0 {
      assert Zeros(k)[1..] == Zeros(k - 1);
      UnLEOfZeros(k - 1);
    }
  }

  /** A run of zero bytes reads as zero at any width inside it. */
  lemma FieldOfZeros(before: Bytes, n: nat, after: Bytes, at: nat, k: nat)
    requires |before| <= at && at + k <= |before| + n
    ensures Field(before + Zeros(n) + after, at, k) == 0
  {
    assert (before + Zeros(n) + after)[at..at + k] == Zeros(k);
    UnLEOfZeros(k);
  }

  /** The guest reads the written size first, behind it the padding. */
  lemma WriteOutFields(size: nat, rest: Bytes)
    ensures |WriteOut(size)| == 8
    ensures Field(WriteOut(size) + rest, 0, 4) == size % U32 && Field(WriteOut(size) + rest, 4, 4) == 0
  {
    hide LE, UnLE, Pow256, Zeros;
    Widths();
    var b := WriteOut(size) + rest;
    assert b == [] + LE(size, 4) + (Zeros(4) + rest);
    FieldOfLE([], size, 4, Zeros(4) + rest);
    FieldOfZeros(LE(size, 4), 4, rest, 4, 4);
  }

  /** major and minor at 0 and 4, max_write at 20: FUSE 7.38 and one mebibyte.  No
      flags, and nothing else is asked for. */
  lemma InitOutFields(rest: Bytes)
    ensures var b := InitOut() + rest;
      && Field(b, 0, 4) == 7 && Field(b, 4, 4) == 38 && Field(b, 20, 4) == 0x10_0000
      && Field(b, 8, 4) == 0 && Field(b, 12, 4) == 0
  {
    hide LE, UnLE, Pow256, Zeros;
    Widths();
    var x, y, z := LE(7, 4), LE(38, 4), LE(0x10_0000, 4);
    var b := InitOut() + rest;
    assert b == [] + x + (y + Zeros(12) + z + Zeros(40) + rest);
    FieldOfLE([], 7, 4, y + Zeros(12) + z + Zeros(40) + rest);
    assert b == x + y + (Zeros(12) + z + Zeros(40) + rest);
    FieldOfLE(x, 38, 4, Zeros(12) + z + Zeros(40) + rest);
    assert b == (x + y + Zeros(12)) + z + (Zeros(40) + rest);
    FieldOfLE(x + y + Zeros(12), 0x10_0000, 4, Zeros(40) + rest);
    assert b == (x + y) + Zeros(12) + (z + Zeros(40) + rest);
    FieldOfZeros(x + y, 12, z + Zeros(40) + rest, 8, 4);
    FieldOfZeros(x + y, 12, z + Zeros(40) + rest, 12, 4);
  }

  /** Besides nodeid and attributes an entry says: generation 0, valid for one second. */
  lemma EntryOutFields(a: Attr, rest: Bytes)
    ensures var b := EntryOut(a) + rest;
      && Field(b, 8, 8) == 0 && Field(b, 16, 8) == 1 && Field(b, 24, 8) == 1 && Field(b, 32, 8) == 0
  {
    hide LE, UnLE, Pow256, Zeros, AttrBytes;
    Widths();
    var i, t, tail := LE(a.ino, 8), LE(1, 8), AttrBytes(a) + rest;
    var b := EntryOut(a) + rest;
    assert b == i + Zeros(8) + (t + t + Zeros(8) + tail);
    FieldOfZeros(i, 8, t + t + Zeros(8) + tail, 8, 8);
    assert b == (i + Zeros(8)) + t + (t + Zeros(8) + tail);
    FieldOfLE(i + Zeros(8), 1, 8, t + Zeros(8) + tail);
    assert b == (i + Zeros(8) + t) + t + (Zeros(8) + tail);
    FieldOfLE(i + Zeros(8) + t, 1, 8, Zeros(8) + tail);
    assert b == (i + Zeros(8) + t + t) + Zeros(8) + tail;
    FieldOfZeros(i + Zeros(8) + t + t, 8, tail, 32, 8);
  }

  /** Attributes are valid for one second. */
  lemma AttrOutFields(a: Attr, rest: Bytes)
    ensures Field(AttrOut(a) + rest, 0, 8) == 1 && Field(AttrOut(a) + rest, 8, 8) == 0
  {
    hide LE, UnLE, Pow256, Zeros, AttrBytes;
    Widths();
    var tail := AttrBytes(a) + rest;
    assert AttrOut(a) + rest == [] + LE(1, 8) + (Zeros(8) + tail) == LE(1, 8) + Zeros(8) + tail;
    FieldOfLE([], 1, 8, Zeros(8) + tail);
    FieldOfZeros(LE(1, 8), 8, tail, 8, 8);
  }

  /** Blocks, times and device numbers are not reported. */
  lemma AttrBlanks(a: Attr, rest: Bytes)
    ensures var b := AttrBytes(a) + rest;
      && Field(b, 16, 8) == Field(b, 24, 8) == Field(b, 32, 8) == Field(b, 40, 8) == 0
      && Field(b, 48, 4) == Field(b, 52, 4) == Field(b, 56, 4) == 0
      && Field(b, 76, 4) == Field(b, 80, 4) == Field(b, 84, 4) == 0
  {
    hide LE, UnLE, Zeros;
    var front := LE(a.ino, 8) + LE(a.size, 8);
    var b, mid := AttrBytes(a) + rest, AttrBytes(a)[60..76];
    assert b == front + Zeros(44) + (mid + Zeros(12) + rest);
    forall at, k | 16 <= at && at + k <= 60 ensures Field(b, at, k) == 0 {
      FieldOfZeros(front, 44, mid + Zeros(12) + rest, at, k);
    }
    assert b == (front + Zeros(44) + mid) + Zeros(12) + rest;
    forall at, k | 76 <= at && at + k <= 88 ensures Field(b, at, k) == 0 {
      FieldOfZeros(front + Zeros(44) + mid, 12, rest, at, k);
    }
  }

  /** File handle 0 and no flags: the handle a guest sends back tells nothing. */
  lemma OpenOutFields(rest: Bytes)
    ensures Field(OpenOut() + rest, 0, 8) == 0 && Field(OpenOut() + rest, 8, 4) == 0
  {
    hide UnLE, Zeros;
    assert OpenOut() + rest == [] + Zeros(16) + rest;
    FieldOfZeros([], 16, rest, 0, 8);
    FieldOfZeros([], 16, rest, 8, 4);
  }

  // ---- directory records --------------------------------------------------

  const DIRENT_SIZE: nat := 24
  const DIR_TYPE: nat := 4
  const FILE_TYPE: nat := 8

  datatype DirEntry = DirEntry(ino: nat, off: nat, type_: nat, name: Bytes)

  /** Round up to a multiple of 8. */
  function Align8(n: nat): (r: nat)
    ensures n <= r < n + 8 && r % 8 == 0
  {
    (n + 7) / 8 * 8
  }

  function DirentHead(e: DirEntry): (r: Bytes)
    ensures |r| == DIRENT_SIZE
  {
    LE(e.ino, 8) + LE(e.off, 8) + LE(|e.name|, 4) + LE(e.type_, 4)
  }

  function RecordLen(e: DirEntry): nat { Align8(DIRENT_SIZE + |e.name|) }

  function Dirent(e: DirEntry): (r: Bytes)
    ensures |r| == RecordLen(e)
  {
    DirentHead(e) + e.name + Zeros(RecordLen(e) - DIRENT_SIZE - |e.name|)
  }

  function Dirents(es: seq<DirEntry>): Bytes {
    if es == [] then [] else Dirent(es[0]) + Dirents(es[1..])
  }

  /** The guest's reader of a directory reply. */
  function DecodeDirents(b: Bytes): Option<seq<DirEntry>>
    decreases |b|
  {
    if b == [] then Some([])
    else if |b| < DIRENT_SIZE then None
    else
      var namelen := Field(b, 16, 4);
      var total := Align8(DIRENT_SIZE + namelen);
      if |b| < total then None
      else
        match DecodeDirents(b[total..])
        case None => None
        case Some(rest) =>
          var e := DirEntry(Field(b, 0, 8), Field(b, 8, 8), Field(b, 20, 4),
                            b[DIRENT_SIZE..DIRENT_SIZE + namelen]);
          Some([e] + rest)
  }

  /** The entry's fields fit their widths. */
  predicate Encodable(e: DirEntry) {
    e.ino < U64 && e.off < U64 && e.type_ < U32 && |e.name| < U32
  }

  lemma FourParts(w: Bytes, x: Bytes, y: Bytes, z: Bytes, tail: Bytes)
    requires |w| == 8 && |x| == 8 && |y| == 4 && |z| == 4
    ensures var b := w + x + y + z + tail;
      b[0..8] == w && b[8..16] == x && b[16..20] == y && b[20..24] == z
  {
  }

  lemma DirentHeadFields(e: DirEntry, tail: Bytes)
    requires Encodable(e)
    ensures var b := DirentHead(e) + tail;
      && Field(b, 0, 8) == e.ino && Field(b, 8, 8) == e.off
      && Field(b, 16, 4) == |e.name| && Field(b, 20, 4) == e.type_
  {
    hide LE;
    hide UnLE;
    hide Pow256;
    Widths();
    FourParts(LE(e.ino, 8), LE(e.off, 8), LE(|e.name|, 4), LE(e.type_, 4), tail);
    UnLEOfLE(e.ino, 8);
    UnLEOfLE(e.off, 8);
    UnLEOfLE(|e.name|, 4);
    UnLEOfLE(e.type_, 4);
  }

  lemma DirentFields(e: DirEntry, rest: Bytes)
    requires Encodable(e)
    ensures var b := Dirent(e) + rest;
      && Field(b, 0, 8) == e.ino && Field(b, 8, 8) == e.off
      && Field(b, 16, 4) == |e.name| && Field(b, 20, 4) == e.type_
      && b[DIRENT_SIZE..DIRENT_SIZE + |e.name|] == e.name
      && b[RecordLen(e)..] == rest
  {
    var pad := Zeros(RecordLen(e) - DIRENT_SIZE - |e.name|);
    DirentHeadFields(e, e.name + pad + rest);
    var b := Dirent(e) + rest;
    assert b == DirentHead(e) + (e.name + pad + rest);
    assert b[DIRENT_SIZE..] == e.name + pad + rest;
    assert b[DIRENT_SIZE..][..|e.name|] == e.name;
  }

  /** Decoding the stream recovers every entry, in order. */
  lemma {:induction false} DirentsRoundTrip(es: seq<DirEntry>)
    requires forall i :: 0 <= i < |es| ==> Encodable(es[i])
    ensures DecodeDirents(Dirents(es)) == Some(es)
  {
    if es != [] {
      DirentFields(es[0], Dirents(es[1..]));
      DirentsRoundTrip(es[1..]);
      assert [es[0]] + es[1..] == es;
    }
  }

  function SumRecords(es: seq<DirEntry>): nat {
    if es == [] then 0 else RecordLen(es[0]) + SumRecords(es[1..])
  }

  lemma {:induction false} DirentsAppend(a: seq<DirEntry>, b: seq<DirEntry>)
    ensures Dirents(a + b) == Dirents(a) + Dirents(b)
  {
    if a == [] {
      assert a + b == b;
    } else {
      assert (a + b)[1..] == a[1..] + b;
      DirentsAppend(a[1..], b);
    }
  }

  lemma RecordAligned(e: DirEntry)
    ensures RecordLen(e) % 8 == 0
  {
  }

  lemma {:induction false} DirentsLength(es: seq<DirEntry>)
    ensures |Dirents(es)| == SumRecords(es) && SumRecords(es) % 8 == 0
  {
    hide RecordLen, Dirent;
    if es != [] {
      DirentsLength(es[1..]);
      assert |Dirents(es)| == RecordLen(es[0]) + |Dirents(es[1..])|;
      RecordAligned(es[0]);
    }
  }

  /** Record i starts at the sum of the records before it, which is a multiple of 8;
      the record lengths add up to the length of the stream. */
  lemma DirentsAligned(es: seq<DirEntry>, i: nat)
    requires i < |es|
    ensures |Dirents(es)| == SumRecords(es)
    ensures var at := SumRecords(es[..i]);
      && at % 8 == 0
      && at + RecordLen(es[i]) <= |Dirents(es)|
      && Dirents(es)[at..at + RecordLen(es[i])] == Dirent(es[i])
  {
    hide Dirents, Dirent, SumRecords, RecordLen;
    var at := SumRecords(es[..i]);
    DirentsLength(es);
    DirentsLength(es[..i]);
    RecordAt(es, i);
    assert Dirents(es)[at..][..RecordLen(es[i])] == Dirent(es[i]);
  }

  lemma RecordAt(es: seq<DirEntry>, i: nat)
    requires i < |es|
    ensures Dirents(es) == Dirents(es[..i]) + (Dirent(es[i]) + Dirents(es[i + 1..]))
  {
    hide Dirent;
    assert es == es[..i] + es[i..];
    assert es[i..][1..] == es[i + 1..];
    DirentsAppend(es[..i], es[i..]);
  }
}
