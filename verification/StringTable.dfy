/**
 The string table of include/utils_qt/qstringdatatable.h on the growing storage of
 include/membuffer.h and include/virtualallocbuffer.h. Address space is reserved once and
 committed step by step, so growth never moves a byte. A record is Qt's static array header for
 64-bit builds followed by the UTF-16 words, low byte first.
 */
module StringTable {
  import opened Arithmetic
  import opened Unicode
  import opened Wrappers
  import Utf8Converter

  const PAGE_SIZE: nat := 64 * 1024
  const PAGE_COUNT: nat := 16
  const HEADER_SIZE: nat := 24
  const ADDRESSABLE: nat := 0x1_0000_0000

  datatype ScopeType = ScopeNone | ScopeEntry | ScopeExit

  function ScopeTag(scope: ScopeType): (tag: seq<Utf16>)
    ensures |tag| == if scope.ScopeNone? then 0 else 2
  {
    match scope
    case ScopeNone => []
    case ScopeEntry => [0x7B, 0x20]
    case ScopeExit => [0x7D, 0x20]
  }

  function Spaces(n: nat): (s: seq<Utf16>)
    ensures |s| == n
  {
    seq(n, _ => 0x20)
  }

  /** The string an entry stands for. */
  function Text(utf8: seq<Byte>, indent: nat, scope: ScopeType): seq<Utf16> {
    Spaces(indent) + ScopeTag(scope) + Decode(WithoutBom(utf8))
  }

  /** What stands in front of the text of an entry, as characters. */
  function Prefix(indent: nat, scope: ScopeType): (s: string)
    ensures forall c | c in s :: c as int < 0x80
  {
    seq(indent, _ => ' ') + match scope case ScopeNone => "" case ScopeEntry => "{ " case ScopeExit => "} "
  }

  function Scalars(s: string): (vs: seq<Scalar>)
    requires forall c | c in s :: c as int < 0x80
    ensures |vs| == |s|
  {
    seq(|s|, i requires 0 <= i < |s| => s[i] as int)
  }

  /** The string of an entry reads as its indentation, its scope mark and the text that was added, less one mark. */
  lemma EntryReads(vs: seq<Scalar>, indent: nat, scope: ScopeType)
    ensures ReadAll16(Text(EncodeAll8(vs), indent, scope))
         == Some(Scalars(Prefix(indent, scope)) + if vs != [] && vs[0] == 0xFEFF then vs[1..] else vs)
  {
    hide Decode, WithoutBom, EncodeAll16, ReadAll16, Prefix, Spaces, ScopeTag, EncodeAll8;
    var front := Scalars(Prefix(indent, scope));
    var text := if vs != [] && vs[0] == 0xFEFF then vs[1..] else vs;
    Utf8Converter.ConvertsEncodedText(vs);
    PrefixIsWritten(indent, scope);
    EncodeAll16Joins(front, text);
    EncodeAll16IsRead(front + text);
  }

  lemma PrefixIsWritten(indent: nat, scope: ScopeType)
    ensures EncodeAll16(Scalars(Prefix(indent, scope))) == Spaces(indent) + ScopeTag(scope)
  {
    hide EncodeAll16;
    EncodeAsciiIsSame(Scalars(Prefix(indent, scope)));
  }

  /** Reference count -1 marks static data; then the length, two empty fields and the data offset. */
  function Header(length: nat): (b: seq<Byte>)
    requires length < 0x8000_0000
    ensures |b| == HEADER_SIZE
  {
    IntBytes(0xFFFF_FFFF) + IntBytes(length) + IntBytes(0) + IntBytes(0) + IntBytes(HEADER_SIZE) + IntBytes(0)
  }

  function WordBytes(text: seq<Utf16>): (b: seq<Byte>)
    ensures |b| == 2 * |text|
  {
    seq(2 * |text|, i requires 0 <= i < 2 * |text| => if i % 2 == 0 then text[i / 2] % 0x100 else text[i / 2] / 0x100)
  }

  function RecordSize(text: seq<Utf16>): nat {
    HEADER_SIZE + 2 * |text|
  }

  function RecordBytes(text: seq<Utf16>): (b: seq<Byte>)
    requires |text| < 0x8000_0000
    ensures |b| == RecordSize(text)
  {
    Header(|text|) + WordBytes(text)
  }

  /** The string whose record starts at `at`, read through its header. */
  function StringAt(m: seq<Byte>, at: nat): seq<Utf16>
    requires at + HEADER_SIZE <= |m|
    requires at + IntAt(m, at + 16) + 2 * IntAt(m, at + 4) <= |m|
  {
    var data := at + IntAt(m, at + 16);
    seq(IntAt(m, at + 4), i requires 0 <= i < IntAt(m, at + 4) => WordAt(m, data + 2 * i))
  }

  function WordAt(m: seq<Byte>, at: nat): Utf16
    requires at + 2 <= |m|
  {
    var b0: nat, b1: nat := m[at], m[at + 1];
    b0 + b1 * 0x100
  }

  /** Memory that holds a record reads back as its string. */
  lemma RecordIsRead(m: seq<Byte>, at: nat, text: seq<Utf16>)
    requires |text| < 0x8000_0000 && at + RecordSize(text) <= |m|
    requires m[at..at + RecordSize(text)] == RecordBytes(text)
    ensures IntAt(m, at) == 0xFFFF_FFFF && IntAt(m, at + 4) == |text| && IntAt(m, at + 16) == HEADER_SIZE
    ensures IntAt(m, at + 8) == IntAt(m, at + 12) == IntAt(m, at + 20) == 0
    ensures StringAt(m, at) == text
  {
    HeaderIsRead(m, at, text);
    forall i | 0 <= i < |text|
      ensures WordAt(m, at + HEADER_SIZE + 2 * i) == text[i]
    {
      WordIsRead(m, at, text, i);
    }
  }

  lemma HeaderIsRead(m: seq<Byte>, at: nat, text: seq<Utf16>)
    requires |text| < 0x8000_0000 && at + RecordSize(text) <= |m|
    requires m[at..at + RecordSize(text)] == RecordBytes(text)
    ensures IntAt(m, at) == 0xFFFF_FFFF && IntAt(m, at + 4) == |text| && IntAt(m, at + 16) == HEADER_SIZE
    ensures IntAt(m, at + 8) == IntAt(m, at + 12) == IntAt(m, at + 20) == 0
  {
    hide IntBytes, IntAt, WordBytes;
    var h := m[at..at + HEADER_SIZE];
    assert h == m[at..at + RecordSize(text)][..HEADER_SIZE] == Header(|text|);
    HeaderFields(h, |text|);
    SliceOfSlice(m, at, HEADER_SIZE, 0, 4);
    SliceOfSlice(m, at, HEADER_SIZE, 4, 8);
    SliceOfSlice(m, at, HEADER_SIZE, 8, 12);
    SliceOfSlice(m, at, HEADER_SIZE, 12, 16);
    SliceOfSlice(m, at, HEADER_SIZE, 16, 20);
    SliceOfSlice(m, at, HEADER_SIZE, 20, 24);
    IntIsRead(m, at, 0xFFFF_FFFF);
    IntIsRead(m, at + 4, |text|);
    IntIsRead(m, at + 8, 0);
    IntIsRead(m, at + 12, 0);
    IntIsRead(m, at + 16, HEADER_SIZE);
    IntIsRead(m, at + 20, 0);
  }

  lemma HeaderFields(h: seq<Byte>, length: nat)
    requires length < 0x8000_0000 && h == Header(length)
    ensures h[0..4] == IntBytes(0xFFFF_FFFF) && h[4..8] == IntBytes(length) && h[16..20] == IntBytes(HEADER_SIZE)
    ensures h[8..12] == h[12..16] == h[20..24] == IntBytes(0)
  {
    hide IntBytes;
  }

  lemma WordIsRead(m: seq<Byte>, at: nat, text: seq<Utf16>, i: nat)
    requires |text| < 0x8000_0000 && at + RecordSize(text) <= |m| && i < |text|
    requires m[at..at + RecordSize(text)] == RecordBytes(text)
    ensures WordAt(m, at + HEADER_SIZE + 2 * i) == text[i]
  {
    hide Header;
    var r := m[at..at + RecordSize(text)];
    var k := HEADER_SIZE + 2 * i;
    assert m[at + k] == r[k] == WordBytes(text)[2 * i] == text[i] % 0x100;
    assert m[at + k + 1] == r[k + 1] == WordBytes(text)[2 * i + 1] == text[i] / 0x100;
  }

  datatype Record = Record(offset: nat, text: seq<Utf16>) {
    function End(): nat { offset + RecordSize(text) }
  }

  class QStringDataTable {
    /** The reserved address range; only the first `regionSize` bytes are committed. */
    var region: array<Byte>
    var endOffset: nat
    var regionSize: nat
    /** Every string added since the storage was made or cleared. */
    ghost var records: seq<Record>

    ghost predicate Valid()
      reads this, region
    {
      && endOffset <= regionSize <= region.Length <= ADDRESSABLE
      && (forall i | 0 <= i < |records| :: Stored(records[i]))
      && Ordered(records)
    }

    /** A record lies in allocated committed storage and the storage holds its bytes. */
    ghost predicate Stored(r: Record)
      reads this, region
    {
      && r.End() <= endOffset <= region.Length <= ADDRESSABLE
      && region[r.offset..r.End()] == RecordBytes(r.text)
    }

    constructor ()
      ensures Valid() && records == [] && regionSize == 0
    {
      region := new Byte[0];
      endOffset, regionSize := 0, 0;
      records := [];
    }

    /** Reserve, then commit the first pages; the two flags say whether the system complies. */
    method MkStorage(reserved: nat, reserves: bool, commits: bool) returns (ok: bool)
      requires reserved <= ADDRESSABLE
      requires Valid() && endOffset == 0 && records == []
      modifies this
      ensures Valid() && records == [] && endOffset == 0
      ensures ok <==> reserves && commits && PAGE_COUNT * PAGE_SIZE <= reserved
      ensures ok ==> regionSize == PAGE_COUNT * PAGE_SIZE && region.Length == reserved
    {
      if !reserves {
        return false;
      }
      region := new Byte[reserved];
      regionSize := 0;
      ok := MkCommitPages(0, PAGE_COUNT * PAGE_SIZE, commits);
      if ok {
        regionSize := PAGE_COUNT * PAGE_SIZE;
      }
    }

    /** Committing can only succeed inside the reserved range. */
    method MkCommitPages(at: nat, size: nat, commits: bool) returns (ok: bool)
      ensures ok <==> commits && at + size <= region.Length
    {
      ok := commits && at + size <= region.Length;
    }

    method Clear()
      requires Valid()
      modifies this
      ensures Valid() && records == [] && endOffset == 0
      ensures region == old(region) && regionSize == old(regionSize)
    {
      endOffset := 0;
      records := [];
    }

    method MoveEnd(n: nat) returns (ok: bool)
      modifies this`endOffset
      ensures ok <==> old(endOffset) + n <= regionSize
      ensures endOffset == if ok then old(endOffset) + n else old(endOffset)
    {
      ok := endOffset + n <= regionSize;
      if ok {
        endOffset := endOffset + n;
      }
    }

    function CalcNextSize(): nat
      reads this
    {
      regionSize + PAGE_COUNT * PAGE_SIZE
    }

    method ResizeStorage(n: nat, commits: bool) returns (ok: bool)
      requires regionSize <= n
      modifies this`regionSize
      ensures ok <==> commits && n <= region.Length
      ensures regionSize == if ok then n else old(regionSize)
    {
      var current := regionSize;
      var commit := n - current;
      ok := false;
      if current + commit <= region.Length {
        ok := MkCommitPages(current, commit, commits);
        if ok {
          regionSize := regionSize + commit;
        }
      }
    }

    /** Take `size` bytes, committing one more stretch of pages when they do not fit. */
    method Malloc(size: nat, commits: bool) returns (ok: bool, mem: nat)
      requires Valid()
      modifies this`endOffset, this`regionSize
      ensures Valid()
      ensures regionSize == GrownSize(old(endOffset) + size, old(regionSize), region.Length, commits)
      ensures ok <==> old(endOffset) + size <= regionSize
      ensures ok ==> mem == old(endOffset) && endOffset == old(endOffset) + size
      ensures !ok ==> endOffset == old(endOffset)
    {
      mem := endOffset;
      ok := MoveEnd(size);
      if !ok {
        var next := CalcNextSize();
        var _ := ResizeStorage(next, commits);
        mem := endOffset;
        ok := MoveEnd(size);
      }
      assert forall i | 0 <= i < |records| :: old(Stored(records[i])) ==> Stored(records[i]);
    }

    method Store(at: nat, bytes: seq<Byte>)
      requires at + |bytes| <= region.Length
      modifies region
      ensures region[at..at + |bytes|] == bytes
      ensures forall k | 0 <= k < region.Length && !(at <= k < at + |bytes|) :: region[k] == old(region[k])
    {
      forall i | 0 <= i < |bytes| {
        region[at + i] := bytes[i];
      }
    }

    /**
     A string is stored behind all others, which keep their bytes, or nothing is consumed. The
     answer is false exactly when the record does not fit even after one attempt to grow.
     */
    method AddQStringDataFromUtf8(utf8: seq<Byte>, indent: nat, scope: ScopeType, spacing: nat, commits: bool)
      returns (ok: bool, offset: nat)
      requires Valid() && (spacing == 1 || spacing == 2)
      modifies this, region
      ensures Valid() && region == old(region)
      ensures var text := Text(utf8, indent, scope);
        var need := old(endOffset) + RecordSize(text);
        && regionSize == GrownSize(need, old(regionSize), region.Length, commits)
        && (ok <==> need <= regionSize)
        && (ok ==> records == old(records) + [Record(offset, text)] && offset < ADDRESSABLE)
        && (!ok ==> records == old(records) && endOffset == old(endOffset) && offset == 0)
    {
      hide RecordBytes, Decode, WithoutBom;
      var text := Compose(utf8, indent, scope, spacing);
      var mem;
      ok, mem := Malloc(RecordSize(text), commits);
      if !ok {
        return false, 0;
      }
      Append(mem, text);
      offset := mem % 0x1_0000_0000;
    }

    /** Write the record of `text` into the space just taken for it. */
    method Append(at: nat, text: seq<Utf16>)
      requires Valid() && at + RecordSize(text) == endOffset
      requires forall i | 0 <= i < |records| :: records[i].End() <= at
      modifies this`records, region
      ensures Valid() && records == old(records) + [Record(at, text)]
    {
      hide RecordBytes;
      WriteRecord(at, text);
      forall i | 0 <= i < |records|
        ensures Stored(records[i])
      {
        assert old(Stored(records[i]));
        assert region[records[i].offset..records[i].End()] == old(region[records[i].offset..records[i].End()]);
      }
      records := records + [Record(at, text)];
    }

    /** The header first, the words behind it. */
    method WriteRecord(at: nat, text: seq<Utf16>)
      requires |text| < 0x8000_0000 && at + RecordSize(text) <= region.Length
      modifies region
      ensures region[at..at + RecordSize(text)] == RecordBytes(text)
      ensures forall k | 0 <= k < region.Length && !(at <= k < at + RecordSize(text)) :: region[k] == old(region[k])
    {
      hide Header, WordBytes;
      var words := at + HEADER_SIZE;
      var end := words + 2 * |text|;
      Store(at, Header(|text|));
      ghost var header := region[at..words];
      Store(words, WordBytes(text));
      assert region[at..words] == header;
      SliceJoins(region[..], at, words, end);
      SliceOfAll(region, at, words);
      SliceOfAll(region, words, end);
      SliceOfAll(region, at, end);
    }

    /** Fill the temporary array: indentation, scope tag, converted text. */
    method Compose(utf8: seq<Byte>, indent: nat, scope: ScopeType, spacing: nat) returns (text: seq<Utf16>)
      requires spacing == 1 || spacing == 2
      ensures text == Text(utf8, indent, scope)
    {
      hide Decode, WithoutBom, Spaces, ScopeTag;
      var tagSize := if scope.ScopeNone? then 0 else 2;
      var tmp := new Utf16[|utf8| + indent + tagSize];
      ComposeFront(tmp, indent, scope);
      var at := indent + tagSize;
      ghost var front := tmp[..at];
      var n := Utf8Converter.Convert(utf8, tmp, at, spacing);
      assert tmp[..at] == front;
      text := tmp[..at + n];
      SliceJoins(text, 0, at, at + n);
      assert text[0..at] == front;
      assert text[at..] == tmp[at..at + n];
    }

    method ComposeFront(tmp: array<Utf16>, indent: nat, scope: ScopeType)
      requires indent + (if scope.ScopeNone? then 0 else 2) <= tmp.Length
      modifies tmp
      ensures tmp[..indent + |ScopeTag(scope)|] == Spaces(indent) + ScopeTag(scope)
    {
      for i := 0 to indent
        invariant forall k | 0 <= k < i :: tmp[k] == 0x20
      {
        tmp[i] := 0x20;
      }
      if scope.ScopeEntry? {
        tmp[indent], tmp[indent + 1] := '{' as int, ' ' as int;
      } else if scope.ScopeExit? {
        tmp[indent], tmp[indent + 1] := '}' as int, ' ' as int;
      }
    }

    /** Reading an offset that some add returned gives the string of that add. */
    method GetQString(offset: nat) returns (text: seq<Utf16>)
      requires Valid()
      requires exists r :: r in records && r.offset == offset
      ensures forall r | r in records && r.offset == offset :: text == r.text
    {
      ghost var r :| r in records && r.offset == offset;
      var m := region[..];
      assert m[r.offset..r.End()] == region[r.offset..r.End()];
      RecordIsRead(m, offset, r.text);
      text := StringAt(m, offset);
      forall s | s in records && s.offset == offset
        ensures text == s.text
      {
        assert m[s.offset..s.End()] == region[s.offset..s.End()];
        RecordIsRead(m, offset, s.text);
      }
    }
  }

  lemma SliceOfAll(a: array<Byte>, i: nat, j: nat)
    requires i <= j <= a.Length
    ensures a[..][i..j] == a[i..j]
  {
  }

  /** Records follow one another without overlap. */
  ghost predicate Ordered(rs: seq<Record>) {
    forall i, j | 0 <= i < j < |rs| :: rs[i].End() <= rs[j].offset
  }

  /** The committed size after a request that would end at `need`. */
  function GrownSize(need: nat, size: nat, reserved: nat, commits: bool): nat {
    if need <= size || !commits || size + PAGE_COUNT * PAGE_SIZE > reserved then size
    else size + PAGE_COUNT * PAGE_SIZE
  }

  lemma RecordsAreDisjoint(t: QStringDataTable, i: nat, j: nat, k: nat)
    requires t.Valid() && i < |t.records| && j < |t.records| && i != j
    requires t.records[i].offset <= k < t.records[i].End()
    ensures !(t.records[j].offset <= k < t.records[j].End())
    ensures k < t.regionSize
  {
  }
}
