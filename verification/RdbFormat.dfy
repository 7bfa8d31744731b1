/** The dump format: a header, length-prefixed records and a terminator. */
module RdbFormat {
  import opened Strings

  type Byte = b: int | 0 <= b < 256 witness 0
  type Bytes = seq<Byte>

  const WORD := 0x1_0000_0000
  const HALF := 0x8000_0000
  const MAX_TEXT := 1048576
  /** The bytes of "KVSDB". */
  const MAGIC: Bytes := [75, 86, 83, 68, 66]
  const VERSION := 1
  const END := -1

  datatype Record = Record(engine: int, key: Str, value: Str)

  // ---- writing

  /** `rdb_write_int`: a 32-bit integer, most significant byte first. */
  function Int(n: int): (b: Bytes)
    ensures |b| == 4
  {
    var u := n % WORD;
    var v := u / 0x100;
    var w := v / 0x100;
    [w / 0x100, w % 0x100, v % 0x100, u % 0x100]
  }

  /** `rdb_write_string` */
  function Text(s: Str): (b: Bytes)
    ensures |b| == 4 + |s|
  {
    Int(|s|) + s
  }

  function Entry(r: Record): Bytes {
    Int(r.engine) + (Text(r.key) + Text(r.value))
  }

  function Entries(rs: seq<Record>): Bytes {
    if rs == [] then [] else Entry(rs[0]) + Entries(rs[1..])
  }

  /** `rdb_save_header` at a given time. */
  function Header(high: int, low: int): (b: Bytes)
    ensures |b| == 17
  {
    MAGIC + Int(VERSION) + Int(high) + Int(low)
  }

  /** The file `rdb_save` leaves behind. */
  function File(high: int, low: int, rs: seq<Record>): Bytes {
    Header(high, low) + (Entries(rs) + Int(END))
  }

  // ---- reading

  datatype Read<T> = Fail | Got(value: T, rest: Bytes)

  function Unsigned(a: int, b: int, c: int, d: int): int {
    a * 0x100_0000 + b * 0x1_0000 + c * 0x100 + d
  }

  function ToInt(b: Bytes): int
    requires |b| == 4
  {
    var u := Unsigned(b[0], b[1], b[2], b[3]);
    if u >= HALF then u - WORD else u
  }

  /** `rdb_read_int` */
  function ReadInt(s: Bytes): (r: Read<int>)
    ensures r.Got? ==> |r.rest| == |s| - 4
  {
    if |s| < 4 then Fail else Got(ToInt(s[..4]), s[4..])
  }

  /** A buffer as a C string: what precedes its first zero byte. */
  function CString(b: Bytes): (s: Str)
    ensures |s| <= |b| && forall i :: 0 <= i < |s| ==> s[i] == b[i]
  {
    if b == [] || b[0] == 0 then [] else [b[0]] + CString(b[1..])
  }

  /** `rdb_read_string` */
  function ReadText(s: Bytes): (r: Read<Str>)
    ensures r.Got? ==> |r.rest| < |s|
  {
    match ReadInt(s)
    case Fail => Fail
    case Got(n, rest) =>
      if n <= 0 || n > MAX_TEXT || |rest| < n then Fail else Got(CString(rest[..n]), rest[n..])
  }

  /** One round of the loop in `rdb_load`; the terminator ends it like a failed read. */
  function ReadEntry(s: Bytes): (r: Read<Record>)
    ensures r.Got? ==> |r.rest| < |s|
  {
    match ReadInt(s)
    case Fail => Fail
    case Got(engine, s1) =>
      if engine == END then Fail else
      match ReadText(s1)
      case Fail => Fail
      case Got(key, s2) =>
        match ReadText(s2)
        case Fail => Fail
        case Got(value, s3) => Got(Record(engine, key, value), s3)
  }

  /** The records the loop reads. */
  function Records(s: Bytes): seq<Record>
    decreases |s|
  {
    match ReadEntry(s)
    case Fail => []
    case Got(r, rest) => [r] + Records(rest)
  }

  predicate HeaderOk(d: Bytes) {
    |d| >= 17 && d[..5] == MAGIC && ToInt(d[5..9]) == VERSION
  }

  // ---- round trips

  lemma IntRound(n: int)
    requires -HALF <= n < HALF
    ensures ToInt(Int(n)) == n
  {
    var u := n % WORD;
    assert u == if n >= 0 then n else n + WORD;
  }

  lemma ReadIntRound(n: int, t: Bytes)
    requires -HALF <= n < HALF
    ensures ReadInt(Int(n) + t) == Got(n, t)
  {
    IntRound(n);
    assert (Int(n) + t)[..4] == Int(n) && (Int(n) + t)[4..] == t;
  }

  lemma {:induction false} CStringRound(s: Str)
    ensures CString(s) == s
  {
    if s != [] {
      CStringRound(s[1..]);
      assert s == [s[0]] + s[1..];
    }
  }

  predicate Fits(s: Str) {
    1 <= |s| <= MAX_TEXT
  }

  lemma ReadTextRound(s: Str, t: Bytes)
    requires |s| < HALF
    ensures ReadText(Text(s) + t) == if Fits(s) then Got(s, t) else Fail
  {
    assert Text(s) + t == Int(|s|) + (s + t);
    ReadIntRound(|s|, s + t);
    assert (s + t)[..|s|] == s && (s + t)[|s|..] == t;
    CStringRound(s);
  }

  lemma ReadTextCut(s: Str, m: nat)
    requires |s| < HALF && m < |Text(s)|
    ensures ReadText(Text(s)[..m]) == Fail
  {
    if m >= 4 {
      assert Text(s)[..m] == Int(|s|) + s[..m - 4];
      ReadIntRound(|s|, s[..m - 4]);
    }
  }

  /** The record can be written at all. */
  predicate Writable(r: Record) {
    -HALF <= r.engine < HALF && r.engine != END && |r.key| < HALF && |r.value| < HALF
  }

  predicate Sound(r: Record) {
    Fits(r.key) && Fits(r.value)
  }

  lemma ReadEntryRound(r: Record, t: Bytes)
    requires Writable(r)
    ensures ReadEntry(Entry(r) + t) == if Sound(r) then Got(r, t) else Fail
  {
    assert Entry(r) + t == Int(r.engine) + (Text(r.key) + (Text(r.value) + t));
    ReadIntRound(r.engine, Text(r.key) + (Text(r.value) + t));
    ReadTextRound(r.key, Text(r.value) + t);
    ReadTextRound(r.value, t);
  }

  lemma ReadEntryCut(r: Record, m: nat)
    requires Writable(r) && m < |Entry(r)|
    ensures ReadEntry(Entry(r)[..m]) == Fail
  {
    if m >= 4 {
      var rest := Text(r.key) + Text(r.value);
      assert Entry(r)[..m] == Int(r.engine) + rest[..m - 4];
      ReadIntRound(r.engine, rest[..m - 4]);
      TextsCut(r.key, r.value, m - 4);
    }
  }

  lemma TextsCut(a: Str, b: Str, m: nat)
    requires |a| < HALF && |b| < HALF && m < |Text(a) + Text(b)|
    ensures var s := (Text(a) + Text(b))[..m];
      ReadText(s).Fail? || ReadText(ReadText(s).rest).Fail?
  {
    var s := (Text(a) + Text(b))[..m];
    if m < |Text(a)| {
      assert s == Text(a)[..m];
      ReadTextCut(a, m);
    } else {
      assert s == Text(a) + Text(b)[..m - |Text(a)|];
      ReadTextRound(a, Text(b)[..m - |Text(a)|]);
      ReadTextCut(b, m - |Text(a)|);
    }
  }

  /** How many records a file of `m` bytes after the header holds completely and readably. */
  function Whole(rs: seq<Record>, m: nat): (n: nat)
    ensures n <= |rs|
  {
    if rs == [] || |Entry(rs[0])| > m || !Sound(rs[0]) then 0 else 1 + Whole(rs[1..], m - |Entry(rs[0])|)
  }

  lemma TerminatorCut(m: nat)
    requires m <= 4
    ensures Records(Int(END)[..m]) == []
  {
    if m == 4 {
      assert Int(END)[..4] == Int(END) + [];
      ReadIntRound(END, []);
    }
  }

  /** Reading on behind a complete record. */
  lemma RecordsStep(r: Record, t: Bytes)
    requires Writable(r)
    ensures Records(Entry(r) + t) == if Sound(r) then [r] + Records(t) else []
  {
    ReadEntryRound(r, t);
  }

  lemma RecordsCut(r: Record, m: nat)
    requires Writable(r) && m < |Entry(r)|
    ensures Records(Entry(r)[..m]) == []
  {
    ReadEntryCut(r, m);
  }

  lemma WholeStep(rs: seq<Record>, m: nat)
    requires rs != [] && |Entry(rs[0])| <= m && Sound(rs[0])
    ensures rs[..Whole(rs, m)] == [rs[0]] + rs[1..][..Whole(rs[1..], m - |Entry(rs[0])|)]
  {
  }

  lemma CutInside(a: Bytes, b: Bytes, m: nat)
    requires m <= |a + b|
    ensures (a + b)[..m] == if m < |a| then a[..m] else a + b[..m - |a|]
  {
  }

  /** Whatever is cut off the end of a dump, loading the rest yields exactly the records that lie
      wholly inside it, up to the first one with a text the reader rejects. */
  lemma {:induction false} CutRecords(rs: seq<Record>, m: nat)
    requires (forall i :: 0 <= i < |rs| ==> Writable(rs[i])) && m <= |Entries(rs) + Int(END)|
    ensures Records((Entries(rs) + Int(END))[..m]) == rs[..Whole(rs, m)]
  {
    hide Int, Entry, Records, Writable, Sound;
    if rs == [] {
      assert (Entries(rs) + Int(END))[..m] == Int(END)[..m];
      TerminatorCut(m);
    } else {
      var r, tail := rs[0], Entries(rs[1..]) + Int(END);
      assert Entries(rs) + Int(END) == Entry(r) + tail;
      CutInside(Entry(r), tail, m);
      if m < |Entry(r)| {
        RecordsCut(r, m);
      } else {
        RecordsStep(r, tail[..m - |Entry(r)|]);
        if Sound(r) {
          CutRecords(rs[1..], m - |Entry(r)|);
          WholeStep(rs, m);
        }
      }
    }
  }

  lemma EntriesStep(rs: seq<Record>, k: nat)
    requires 0 < k <= |rs|
    ensures |Entries(rs[..k])| == |Entry(rs[0])| + |Entries(rs[1..][..k - 1])|
  {
    assert rs[..k][1..] == rs[1..][..k - 1];
  }

  /** When every text is acceptable, the count is that of the records whose bytes all lie inside. */
  lemma {:induction false} WholeIs(rs: seq<Record>, m: nat, k: nat)
    requires (forall i :: 0 <= i < |rs| ==> Sound(rs[i])) && k <= |rs|
    ensures k <= Whole(rs, m) <==> |Entries(rs[..k])| <= m
  {
    if k > 0 {
      EntriesStep(rs, k);
      if |Entry(rs[0])| <= m {
        WholeIs(rs[1..], m - |Entry(rs[0])|, k - 1);
      }
    }
  }

  lemma HeaderRound(high: int, low: int, t: Bytes)
    ensures HeaderOk(Header(high, low) + t) && (Header(high, low) + t)[17..] == t
  {
    var d := Header(high, low) + t;
    IntRound(VERSION);
    assert d[..5] == MAGIC && d[5..9] == Int(VERSION);
  }

  /** A dump cut anywhere behind its header loads exactly the records that lie wholly inside. */
  lemma CutFile(high: int, low: int, rs: seq<Record>, n: nat)
    requires (forall i :: 0 <= i < |rs| ==> Writable(rs[i])) && 17 <= n <= |File(high, low, rs)|
    ensures var d := File(high, low, rs)[..n];
      HeaderOk(d) && Records(d[17..]) == rs[..Whole(rs, n - 17)]
  {
    var body := Entries(rs) + Int(END);
    var d := File(high, low, rs)[..n];
    CutInside(Header(high, low), body, n);
    HeaderRound(high, low, body[..n - 17]);
    CutRecords(rs, n - 17);
  }

  /** A complete dump loads every record if and only if all its texts are of acceptable length. */
  lemma FileRound(high: int, low: int, rs: seq<Record>)
    requires forall i :: 0 <= i < |rs| ==> Writable(rs[i])
    ensures HeaderOk(File(high, low, rs))
    ensures Records(File(high, low, rs)[17..]) == rs <==> forall i :: 0 <= i < |rs| ==> Sound(rs[i])
  {
    var d := File(high, low, rs);
    CutFile(high, low, rs, |d|);
    assert d[..|d|] == d;
    var m := |d| - 17;
    WholeSound(rs, m);
    if forall i :: 0 <= i < |rs| ==> Sound(rs[i]) {
      assert rs[..|rs|] == rs;
      WholeIs(rs, m, |rs|);
    }
  }

  lemma {:induction false} WholeSound(rs: seq<Record>, m: nat)
    ensures forall i :: 0 <= i < Whole(rs, m) ==> Sound(rs[i])
  {
    if rs != [] && |Entry(rs[0])| <= m {
      WholeSound(rs[1..], m - |Entry(rs[0])|);
    }
  }

  /** A record with an empty text is written, but the reader stops there and loses all that follow. */
  lemma EmptyStops(high: int, low: int, r: Record, rs: seq<Record>)
    requires Writable(r) && (r.key == [] || r.value == [])
    ensures HeaderOk(File(high, low, [r] + rs)) && Records(File(high, low, [r] + rs)[17..]) == []
  {
    var tail := Entries(rs) + Int(END);
    assert ([r] + rs)[1..] == rs && Entries([r] + rs) + Int(END) == Entry(r) + tail;
    HeaderRound(high, low, Entry(r) + tail);
    RecordsStep(r, tail);
  }

  // ---- the bytes themselves

  /** A header and a record as they stand in a file, and the end mark. */
  lemma Bytewise()
    ensures Header(0, 7) == [75, 86, 83, 68, 66, 0, 0, 0, 1, 0, 0, 0, 0, 0, 0, 0, 7]
    ensures Entry(Record(2, [97], [98, 99])) == [0, 0, 0, 2, 0, 0, 0, 1, 97, 0, 0, 0, 2, 98, 99]
    ensures Int(END) == [255, 255, 255, 255]
  {
  }

  /** An integer is written modulo 2^32, its most significant byte first. */
  lemma IntExact(n: int)
    ensures Unsigned(Int(n)[0], Int(n)[1], Int(n)[2], Int(n)[3]) == n % 0x1_0000_0000
  {
    var u := n % WORD;
    var v := u / 0x100;
    var w := v / 0x100;
    Digits(u, v, w);
  }

  lemma Digits(u: int, v: int, w: int)
    requires v == u / 0x100 && w == v / 0x100
    ensures ((w / 0x100 * 0x100 + w % 0x100) * 0x100 + v % 0x100) * 0x100 + u % 0x100 == u
  {
    assert u == 0x100 * v + u % 0x100;
    assert v == 0x100 * w + v % 0x100;
    assert w == 0x100 * (w / 0x100) + w % 0x100;
  }

  /** A file is accepted if and only if it is long enough and begins with the magic and version 1. */
  lemma HeaderExact(d: Bytes)
    ensures HeaderOk(d) <==> |d| >= 17 && d[..9] == [75, 86, 83, 68, 66, 0, 0, 0, 1]
  {
    if |d| >= 17 {
      var e := d[5..9];
      assert d[..9] == d[..5] + e;
      assert ToInt(e) == 1 <==> e == [0, 0, 0, 1];
    }
  }

  /** Exactly what is read as a text: a length from 1 to 1048576 and as many bytes, of which those behind a zero
      byte do not count. */
  lemma ReadTextExact(s: Bytes)
    ensures |s| < 4 ==> ReadText(s) == Fail
    ensures |s| >= 4 ==> var n := ToInt(s[..4]);
      if 1 <= n <= 1048576 && |s| >= 4 + n then
        && ReadText(s).Got? && ReadText(s).rest == s[4 + n..]
        && var t := ReadText(s).value;
        && |t| <= n && (|t| < n ==> s[4 + |t|] == 0) && forall i :: 0 <= i < |t| ==> t[i] == s[4 + i]
      else ReadText(s) == Fail
  {
    if |s| >= 4 {
      var n := ToInt(s[..4]);
      if 1 <= n <= 1048576 && |s| >= 4 + n {
        assert s[4..][..n] == s[4..4 + n] && s[4..][n..] == s[4 + n..];
        CStringEnds(s[4..4 + n]);
      }
    }
  }

  lemma {:induction false} CStringEnds(b: Bytes)
    ensures |CString(b)| < |b| ==> b[|CString(b)|] == 0
  {
    if b != [] && b[0] != 0 {
      CStringEnds(b[1..]);
    }
  }

  /** Reading ends at the end mark, whatever follows. */
  lemma EndStops(s: Bytes)
    requires |s| >= 4 && s[..4] == [255, 255, 255, 255]
    ensures Records(s) == []
  {
    assert ToInt(s[..4]) == END;
  }
}
