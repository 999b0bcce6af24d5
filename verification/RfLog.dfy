/** The log file of the node: its documented layout, and where its writer puts the fields. */
module RfLog {
  import opened Wire
  import opened Rounding

  const RFLOG_MAGIC_NO: nat := 0x7266_6c67

  /** An entry is the bytes it serialises to. */
  type Entry = seq<byte>

  // ----- the documented layout

  /** A segment: the length of the content, the content, and where the segment starts. */
  function Segment(e: Entry, start: nat): (s: seq<byte>)
    ensures |s| == |e| + 8
  {
    Bytes(|e|, 4) + e + Bytes(start, 4)
  }

  /** Segments one behind the other, from a place in the file on. */
  function Segments(es: seq<Entry>, start: nat): (s: seq<byte>) {
    if es == [] then [] else Segment(es[0], start) + Segments(es[1..], start + |es[0]| + 8)
  }

  function File(es: seq<Entry>): (s: seq<byte>) {
    Bytes(RFLOG_MAGIC_NO, 4) + Segments(es, 4)
  }

  /** What reading a file comes to; reading outside of it is undefined. */
  datatype Recovered = Log(entries: seq<Entry>) | Corrupt | Outside

  /** Reading segments: each must be whole and end with its own start. */
  function ReadSegments(s: seq<byte>, start: nat): (r: Recovered)
    decreases |s|
  {
    if s == [] then Log([])
    else if |s| < 8 || |s| < 8 + Value(s[..4]) then Corrupt
    else
      var len := Value(s[..4]);
      if Value(s[4 + len..8 + len]) != start then Corrupt
      else
        match ReadSegments(s[8 + len..], start + len + 8)
        case Log(es) => Log([s[4..4 + len]] + es)
        case bad => bad
  }

  function Recover(s: seq<byte>): (r: Recovered) {
    if |s| < 4 || Value(s[..4]) != RFLOG_MAGIC_NO then Corrupt else ReadSegments(s[4..], 4)
  }

  lemma ReadOne(e: Entry, start: nat, rest: seq<byte>)
    requires |e| < U32 && start < U32
    ensures ReadSegments(Segment(e, start) + rest, start) ==
      match ReadSegments(rest, start + |e| + 8) case Log(es) => Log([e] + es) case bad => bad
  {
    hide Value, Segment;
    SegmentParts(e, start, rest);
  }

  lemma SegmentParts(e: Entry, start: nat, rest: seq<byte>)
    requires |e| < U32 && start < U32
    ensures var s := Segment(e, start) + rest;
      && Value(s[..4]) == |e| && s[4..4 + |e|] == e && Value(s[4 + |e|..8 + |e|]) == start && s[8 + |e|..] == rest
  {
    hide Bytes, Value;
    var s := Segment(e, start) + rest;
    var a, b := Bytes(|e|, 4), Bytes(start, 4);
    assert s == a + e + b + rest;
    assert s[..4] == a;
    assert s[4 + |e|..8 + |e|] == b;
    Pow256Values();
    ValueOfBytes(|e|, 4);
    ValueOfBytes(start, 4);
  }

  lemma {:induction false} ReadBack(es: seq<Entry>, start: nat)
    requires start + |Segments(es, start)| <= U32
    ensures ReadSegments(Segments(es, start), start) == Log(es)
    decreases es
  {
    hide Segment;
    if es != [] {
      var next := start + |es[0]| + 8;
      ReadBack(es[1..], next);
      ReadOne(es[0], start, Segments(es[1..], next));
      assert es == [es[0]] + es[1..];
    }
  }

  /** A file begins with the letters rflg; the least one that has an entry with one byte, byte by byte. */
  lemma FileLayout(x: byte)
    ensures File([]) == [0x72, 0x66, 0x6c, 0x67]
    ensures File([[x]]) == [0x72, 0x66, 0x6c, 0x67, 0, 0, 0, 1, x, 0, 0, 0, 4]
  {
    hide Bytes;
    FourBytes(0x72, 0x66, 0x6c, 0x67);
    FourBytes(0, 0, 0, 1);
    FourBytes(0, 0, 0, 4);
    assert Segments([[x]], 4) == Segment([x], 4) + [];
  }

  /** Recovery returns the entries that were written, in order. */
  lemma RecoverAll(es: seq<Entry>)
    requires |File(es)| <= U32
    ensures Recover(File(es)) == Log(es)
  {
    hide Bytes, Value;
    var s := File(es);
    assert s[..4] == Bytes(RFLOG_MAGIC_NO, 4) && s[4..] == Segments(es, 4);
    Pow256Values();
    ValueOfBytes(RFLOG_MAGIC_NO, 4);
    ReadBack(es, 4);
  }

  lemma {:induction false} ReadOnlySegments(s: seq<byte>, start: nat)
    ensures !ReadSegments(s, start).Outside?
    ensures ReadSegments(s, start).Log? ==> s == Segments(ReadSegments(s, start).entries, start)
    decreases |s|
  {
    hide Value, Segment;
    if 8 <= |s| && 8 + Value(s[..4]) <= |s| {
      var len := Value(s[..4]);
      var rest := s[8 + len..];
      ReadOnlySegments(rest, start + len + 8);
      if ReadSegments(s, start).Log? {
        SegmentCut(s, start);
        var e, es := s[4..4 + len], ReadSegments(rest, start + len + 8).entries;
        assert ReadSegments(s, start).entries == [e] + es;
        assert ([e] + es)[1..] == es;
      }
    }
  }

  lemma SegmentCut(s: seq<byte>, start: nat)
    requires 8 <= |s| && 8 + Value(s[..4]) <= |s|
    requires var len := Value(s[..4]); Value(s[4 + len..8 + len]) == start
    ensures var len := Value(s[..4]); s == Segment(s[4..4 + len], start) + s[8 + len..]
  {
    hide Bytes, Value;
    var len := Value(s[..4]);
    BytesOfValue(s[..4]);
    BytesOfValue(s[4 + len..8 + len]);
    assert s == s[..4] + s[4..4 + len] + s[4 + len..8 + len] + s[8 + len..];
  }

  /** Recovery returns entries exactly for the file of those entries, and finds every other file corrupt. */
  lemma RecoverExact(s: seq<byte>, es: seq<Entry>)
    requires |s| <= U32
    ensures Recover(s) == Log(es) <==> s == File(es)
    ensures Recover(s).Log? || Recover(s) == Corrupt
  {
    hide Bytes, Value, Segments, ReadSegments;
    if |s| >= 4 && Value(s[..4]) == RFLOG_MAGIC_NO {
      ReadOnlySegments(s[4..], 4);
      BytesOfValue(s[..4]);
      assert s == s[..4] + s[4..];
    }
    if s == File(es) {
      RecoverAll(es);
    }
  }

  function Flatten(gs: seq<seq<Entry>>): (es: seq<Entry>) {
    if gs == [] then [] else Flatten(gs[..|gs| - 1]) + gs[|gs| - 1]
  }

  /** A file written in portions: each is appended at the size the file has. */
  function Written(gs: seq<seq<Entry>>): (s: seq<byte>) {
    if gs == [] then Bytes(RFLOG_MAGIC_NO, 4)
    else
      var file := Written(gs[..|gs| - 1]);
      file + Segments(gs[|gs| - 1], |file|)
  }

  lemma {:induction false} WrittenFile(gs: seq<seq<Entry>>)
    ensures Written(gs) == File(Flatten(gs))
  {
    hide Bytes;
    if gs == [] {
      assert Bytes(RFLOG_MAGIC_NO, 4) + [] == Bytes(RFLOG_MAGIC_NO, 4);
    } else {
      var before, last := gs[..|gs| - 1], gs[|gs| - 1];
      WrittenFile(before);
      Portions(Flatten(before), last, 4);
      Assoc(Bytes(RFLOG_MAGIC_NO, 4), Segments(Flatten(before), 4), Segments(last, |File(Flatten(before))|));
    }
  }

  /** Recovery returns exactly the entries appended, in order, for any grouping of them into portions. */
  lemma RecoverWritten(gs: seq<seq<Entry>>)
    requires |Written(gs)| <= U32
    ensures Recover(Written(gs)) == Log(Flatten(gs))
  {
    WrittenFile(gs);
    RecoverAll(Flatten(gs));
  }

  /** A portion goes behind what is there. */
  lemma {:induction false} Portions(a: seq<Entry>, b: seq<Entry>, start: nat)
    ensures Segments(a + b, start) == Segments(a, start) + Segments(b, start + |Segments(a, start)|)
    decreases a
  {
    hide Segment;
    if a == [] {
      assert a + b == b;
    } else {
      var next := start + |a[0]| + 8;
      Portions(a[1..], b, next);
      assert (a + b)[1..] == a[1..] + b;
      Assoc(Segment(a[0], start), Segments(a[1..], next), Segments(b, next + |Segments(a[1..], next)|));
    }
  }

  // ----- the reader, the file size and the sync index as they are written

  /** The loop of initialize: the length at the offset, the start field at the length behind it, the
      content from the offset up to the length. */
  function ReadAsWritten(s: seq<byte>, offset: nat): (r: Recovered)
    decreases |s| - offset
  {
    if offset >= |s| then Log([])
    else if offset + 4 > |s| then Outside
    else
      var len := Value(s[offset..offset + 4]);
      if offset + len + 4 > |s| then Outside
      else if Value(s[offset + len..offset + len + 4]) != offset then Corrupt
      else
        var entry := if offset <= len then s[offset..len] else [];
        match ReadAsWritten(s, offset + len + 4)
        case Log(es) => Log([entry] + es)
        case bad => bad
  }

  /** It returns the entries of a file of the documented layout exactly when there are none. */
  lemma ReaderExact(es: seq<Entry>)
    requires |File(es)| <= U32
    ensures ReadAsWritten(File(es), 4) == Log(es) <==> es == []
  {
    hide Bytes, Value, Segment;
    var s := File(es);
    if es != [] {
      var e, rest := es[0], Segments(es[1..], 4 + |es[0]| + 8);
      SegmentParts(e, 4, rest);
      var body := Segment(e, 4) + rest;
      assert s[4..] == body && s[4..8] == body[..4];
      assert Value(s[4..8]) == |e|;
    }
  }

  /** A segment whose length counts its own field too. */
  function Counted(c: Entry, start: nat): (s: seq<byte>)
    ensures |s| == |c| + 8
  {
    Bytes(|c| + 4, 4) + c + Bytes(start, 4)
  }

  function CountedAll(cs: seq<Entry>, start: nat): (s: seq<byte>) {
    if cs == [] then [] else Counted(cs[0], start) + CountedAll(cs[1..], start + |cs[0]| + 8)
  }

  function Slice(s: seq<byte>, from: nat, to: nat): (e: Entry) {
    if from < to <= |s| then s[from..to] else []
  }

  /** What is taken for the contents: from where each segment starts up to the number its length is. */
  function Slices(s: seq<byte>, cs: seq<Entry>, start: nat): (es: seq<Entry>)
    ensures |es| == |cs|
    decreases cs
  {
    if cs == [] then [] else [Slice(s, start, |cs[0]| + 4)] + Slices(s, cs[1..], start + |cs[0]| + 8)
  }

  /** Segments with such lengths are what the reader goes through, one by one up to the last byte of the
      file; what it takes for their contents are other bytes. */
  lemma {:induction false} ReaderWalks(before: seq<byte>, cs: seq<Entry>)
    requires |before| + |CountedAll(cs, |before|)| <= U32
    ensures var s := before + CountedAll(cs, |before|); ReadAsWritten(s, |before|) == Log(Slices(s, cs, |before|))
    decreases cs
  {
    hide Bytes, Value, Counted, ReadAsWritten, Slice;
    var start := |before|;
    var s := before + CountedAll(cs, start);
    if cs == [] {
      ReadsOn(s, start);
    } else {
      var len, one := |cs[0]| + 4, Counted(cs[0], start);
      var rest := CountedAll(cs[1..], start + len + 4);
      CountedParts(before, cs[0], rest);
      assert s == (before + one) + rest;
      ReaderWalks(before + one, cs[1..]);
      ReadsOn(s, start);
      assert Slices(s, cs, start) == [Slice(s, start, len)] + Slices(s, cs[1..], start + len + 4);
    }
  }

  /** One step of the reader. */
  lemma ReadsOn(s: seq<byte>, offset: nat)
    requires offset + 4 <= |s| ==>
      var len := Value(s[offset..offset + 4]);
      offset + len + 4 <= |s| && Value(s[offset + len..offset + len + 4]) == offset
    requires offset + 4 <= |s| || offset == |s|
    ensures offset == |s| ==> ReadAsWritten(s, offset) == Log([])
    ensures offset < |s| ==>
      var len := Value(s[offset..offset + 4]);
      ReadAsWritten(s, offset) == match ReadAsWritten(s, offset + len + 4)
        case Log(es) => Log([Slice(s, offset, len)] + es)
        case bad => bad
  {
    hide Value;
    assert offset < |s| ==> s[offset..offset] == [];
  }

  lemma CountedParts(before: seq<byte>, c: Entry, rest: seq<byte>)
    requires |before| + |c| + 8 <= U32
    ensures var s, start := before + (Counted(c, |before|) + rest), |before|;
      && Value(s[start..start + 4]) == |c| + 4
      && Value(s[start + |c| + 4..start + |c| + 8]) == start
  {
    hide Bytes, Value;
    var s, start := before + (Counted(c, |before|) + rest), |before|;
    assert s[start..start + 4] == Bytes(|c| + 4, 4);
    assert s[start + |c| + 4..start + |c| + 8] == Bytes(start, 4);
    Pow256Values();
    ValueOfBytes(|c| + 4, 4);
    ValueOfBytes(start, 4);
  }

  /** A rest of the file too short for a length is read outside of; in one as long as that, the length
      stands where the start is looked for if it is zero, and that is outside otherwise. */
  lemma ReaderEnd(s: seq<byte>, offset: nat)
    requires 0 < offset < |s| <= offset + 4
    ensures ReadAsWritten(s, offset) == (if |s| == offset + 4 && Value(s[offset..]) == 0 then Corrupt else Outside)
  {
    hide Value;
    if |s| == offset + 4 {
      var len := Value(s[offset..]);
      assert s[offset..] == s[offset..offset + 4];
      assert len == 0 ==> s[offset + len..offset + len + 4] == s[offset..];
    }
  }

  /** A new file's header is not counted, so its segments carry starts that are four too small; recovery
      refuses them unless there are none. */
  lemma NewFileExact(es: seq<Entry>)
    requires |File(es)| <= U32
    ensures Recover(Bytes(RFLOG_MAGIC_NO, 4) + Segments(es, 0)) == Log(es) <==> es == []
  {
    hide Bytes, Value, Segment;
    var s := Bytes(RFLOG_MAGIC_NO, 4) + Segments(es, 0);
    assert s[..4] == Bytes(RFLOG_MAGIC_NO, 4) && s[4..] == Segments(es, 0);
    Pow256Values();
    ValueOfBytes(RFLOG_MAGIC_NO, 4);
    if es != [] {
      SegmentParts(es[0], 0, Segments(es[1..], |es[0]| + 8));
    }
  }

  /** What the portions carry when the sync index is never advanced: each one all entries so far. */
  function Resynced(gs: seq<seq<Entry>>): (es: seq<Entry>) {
    if gs == [] then [] else Resynced(gs[..|gs| - 1]) + Flatten(gs)
  }

  /** The portions, in the order they are written. */
  function Carried(gs: seq<seq<Entry>>): (ps: seq<seq<Entry>>)
    ensures |ps| == |gs|
  {
    if gs == [] then [] else Carried(gs[..|gs| - 1]) + [Flatten(gs)]
  }

  /** They are what is read back from the file they are written to. */
  lemma ResyncRecovered(gs: seq<seq<Entry>>)
    requires |Written(Carried(gs))| <= U32
    ensures Recover(Written(Carried(gs))) == Log(Resynced(gs))
    ensures forall i | 0 <= i < |gs| :: Carried(gs)[i] == Flatten(gs[..i + 1])
  {
    RecoverWritten(Carried(gs));
    CarriedAll(gs);
  }

  lemma {:induction false} CarriedAll(gs: seq<seq<Entry>>)
    ensures Flatten(Carried(gs)) == Resynced(gs)
    ensures forall i | 0 <= i < |gs| :: Carried(gs)[i] == Flatten(gs[..i + 1])
  {
    if gs != [] {
      var before := gs[..|gs| - 1];
      CarriedAll(before);
      assert Carried(gs)[..|gs| - 1] == Carried(before);
      forall i | 0 <= i < |gs|
        ensures Carried(gs)[i] == Flatten(gs[..i + 1])
      {
        assert i < |gs| - 1 ==> gs[..i + 1] == before[..i + 1];
        assert i == |gs| - 1 ==> gs[..i + 1] == gs;
      }
    }
  }

  /** That is the entries appended exactly when nothing was appended before the last portion. */
  lemma ResyncExact(gs: seq<seq<Entry>>)
    requires gs != []
    ensures Resynced(gs) == Flatten(gs) <==> Flatten(gs[..|gs| - 1]) == []
  {
    var before := gs[..|gs| - 1];
    ResyncEmpty(before);
    assert |Resynced(gs)| == |Resynced(before)| + |Flatten(gs)|;
    if Resynced(before) == [] {
      assert [] + Flatten(gs) == Flatten(gs);
    }
  }

  lemma {:induction false} ResyncEmpty(gs: seq<seq<Entry>>)
    ensures Resynced(gs) == [] <==> Flatten(gs) == []
  {
    if gs != [] {
      var before := gs[..|gs| - 1];
      ResyncEmpty(before);
      assert |Resynced(gs)| == |Resynced(before)| + |Flatten(gs)|;
      assert |Flatten(gs)| == |Flatten(before)| + |gs[|gs| - 1]|;
    }
  }

  // ----- where Sync writes

  /** The widths of the fields of a portion, in order. */
  function Widths(es: seq<Entry>): (ws: seq<nat>) {
    if es == [] then [] else [4, |es[0]|, 4] + Widths(es[1..])
  }

  /** Where each field belongs. */
  function Proper(ws: seq<nat>, offset: nat): (ps: seq<nat>)
    ensures |ps| == |ws|
    decreases ws
  {
    if ws == [] then [] else [offset] + Proper(ws[1..], offset + ws[0])
  }

  /** Where Sync writes each field: behind each one it moves its cursor by the length of everything so
      far, not by the width of the field. */
  function Places(ws: seq<nat>, pos: nat, offset: nat): (ps: seq<nat>)
    ensures |ps| == |ws|
    decreases ws
  {
    if ws == [] then [] else [pos] + Places(ws[1..], pos + offset + ws[0], offset + ws[0])
  }

  /** The loop of Sync, as far as the cursor goes. */
  method SyncCursor(es: seq<Entry>) returns (places: seq<nat>)
    ensures places == Places(Widths(es), 0, 0)
  {
    places := [];
    var pos: nat, offset: nat, idx := 0, 0, 0;
    assert es[0..] == es;
    while idx < |es|
      invariant idx <= |es| && Places(Widths(es), 0, 0) == places + Places(Widths(es[idx..]), pos, offset)
    {
      ghost var ws, p0, o0 := Widths(es[idx + 1..]), pos, offset;
      var size := |es[idx]|;
      assert es[idx..][1..] == es[idx + 1..];
      places := places + [pos];
      offset := offset + 4;
      pos := pos + offset;
      places := places + [pos];
      offset := offset + size;
      pos := pos + offset;
      places := places + [pos];
      offset := offset + 4;
      pos := pos + offset;
      ThreePlaces(size, ws, p0, o0);
      idx := idx + 1;
    }
  }

  lemma ThreePlaces(size: nat, ws: seq<nat>, pos: nat, offset: nat)
    ensures var p1 := pos + offset + 4; var p2 := p1 + offset + 4 + size; var p3 := p2 + offset + 8 + size;
      Places([4, size, 4] + ws, pos, offset) == [pos, p1, p2] + Places(ws, p3, offset + 8 + size)
  {
    var all, two, one := [4, size, 4] + ws, [size, 4] + ws, [4] + ws;
    assert all[1..] == two && two[1..] == one && one[1..] == ws;
    var p1 := pos + offset + 4;
    var p2 := p1 + offset + 4 + size;
    assert Places(one, p2, offset + 4 + size) == [p2] + Places(ws, p2 + offset + 8 + size, offset + 8 + size);
    assert Places(two, p1, offset + 4) == [p1] + Places(one, p2, offset + 4 + size);
  }

  /** Behind its place once, the cursor stays ahead of it. */
  lemma {:induction false} StaysAhead(ws: seq<nat>, pos: nat, offset: nat, f: nat)
    requires f < |ws| && pos > offset
    ensures Places(ws, pos, offset)[f] > Proper(ws, offset)[f]
    decreases ws
  {
    if f > 0 {
      StaysAhead(ws[1..], pos + offset + ws[0], offset + ws[0], f - 1);
    }
  }

  /** Of every portion only the first two fields, a length and a content, go where they belong. */
  lemma OnlyTwoPlaced(es: seq<Entry>, f: nat)
    requires f < |Widths(es)|
    ensures Places(Widths(es), 0, 0)[f] == Proper(Widths(es), 0)[f] <==> f <= 1
  {
    var ws := Widths(es);
    assert ws[0] == 4;
    var r := ws[1..];
    if f > 1 {
      StaysAhead(r[1..], 4 + 4 + r[0], 4 + r[0], f - 2);
    }
  }

  /** So the last field of a portion, the start of its last segment, is written at least partly behind the
      bytes that go to the file. */
  lemma LastFieldLost(es: seq<Entry>)
    requires es != []
    ensures var ws := Widths(es); ws != [] && ws[|ws| - 1] == 4
    ensures var ws := Widths(es); Places(ws, 0, 0)[|ws| - 1] + 4 > |Segments(es, 0)|
  {
    var ws := Widths(es);
    ProperEnd(es, 0, 0);
    OnlyTwoPlaced(es, |ws| - 1);
    WidthsLength(es);
    StaysAhead(ws[1..][1..], 4 + 4 + ws[1], 4 + ws[1], |ws| - 3);
  }

  lemma {:induction false} WidthsLength(es: seq<Entry>)
    ensures |Widths(es)| == 3 * |es|
    ensures es != [] ==> Widths(es)[3 * |es| - 1] == 4
  {
    if es != [] {
      WidthsLength(es[1..]);
    }
  }

  lemma {:induction false} ProperEnd(es: seq<Entry>, offset: nat, start: nat)
    requires es != []
    ensures |Widths(es)| == 3 * |es| && Proper(Widths(es), offset)[3 * |es| - 1] + 4 == offset + |Segments(es, start)|
    decreases es
  {
    hide Segment, Proper;
    WidthsLength(es);
    var next := offset + |es[0]| + 8;
    ThreeProper(|es[0]|, Widths(es[1..]), offset);
    if |es| > 1 {
      ProperEnd(es[1..], next, start + |es[0]| + 8);
      assert Proper(Widths(es), offset)[3 * |es| - 1] == Proper(Widths(es[1..]), next)[3 * |es[1..]| - 1];
    } else {
      assert es[1..] == [];
    }
  }

  lemma ThreeProper(size: nat, ws: seq<nat>, offset: nat)
    ensures Proper([4, size, 4] + ws, offset) == [offset, offset + 4, offset + 4 + size] + Proper(ws, offset + size + 8)
  {
    var all, two, one := [4, size, 4] + ws, [size, 4] + ws, [4] + ws;
    assert all[1..] == two && two[1..] == one && one[1..] == ws;
    assert Proper(one, offset + 4 + size) == [offset + 4 + size] + Proper(ws, offset + size + 8);
    assert Proper(two, offset + 4) == [offset + 4] + Proper(one, offset + 4 + size);
  }
}
