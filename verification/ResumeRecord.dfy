/**
 * The record that an interrupted restore leaves on disk: a chain of levels, one per
 * directory being restored, each with the ids already restored at that level and, except
 * for the last, the id and local name of the directory it has descended into.
 */
module ResumeRecord {
  import opened Common
  import opened Bytes

  const PATH_MAX := 4096

  type Name = seq<byte>

  datatype Level = Level(restored: set<int>, nextId: int, nextName: Name)

  type Chain = seq<Level>

  /** Exactly the last level has no next level; an id of zero marks its absence. */
  ghost predicate WellLinked(c: Chain) {
    && |c| > 0
    && (forall i :: 0 <= i < |c| - 1 ==> c[i].nextId != 0)
    && c[|c| - 1].nextId == 0
    && c[|c| - 1].nextName == []
  }

  /** The sizes that the 64-bit and 32-bit fields of the format can hold. */
  ghost predicate LevelFits(l: Level) {
    && |l.restored| < TWO63
    && (forall id :: id in l.restored ==> IsInt64(id))
    && IsInt64(l.nextId)
    && |l.nextName| < TWO31
  }

  ghost predicate Encodable(c: Chain) {
    WellLinked(c) && forall i :: 0 <= i < |c| ==> LevelFits(c[i])
  }

  /** No name is longer than the buffer that the reader copies it into. */
  ghost predicate NamesFitBuffer(c: Chain) {
    forall i :: 0 <= i < |c| ==> |c[i].nextName| <= PATH_MAX
  }

  // ----- writing -----

  ghost predicate IsLeast(s: set<int>, m: int) {
    m in s && forall x :: x in s ==> m <= x
  }

  lemma {:induction false} LeastExists(s: set<int>)
    requires s != {}
    ensures exists m :: IsLeast(s, m)
    decreases |s|
  {
    EmptyOrHasElement(s);
    var a :| a in s;
    if s == {a} {
      assert IsLeast(s, a);
    } else {
      var rest := s - {a};
      LeastExists(rest);
      var m :| IsLeast(rest, m);
      assert forall x :: x in s ==> x == a || x in rest;
      assert IsLeast(s, if a < m then a else m);
    }
  }

  ghost function Least(s: set<int>): (m: int)
    requires s != {}
    ensures IsLeast(s, m)
  {
    LeastExists(s);
    var m :| IsLeast(s, m);
    m
  }

  /** The ids in the order in which an ordered set hands them out, each in eight bytes. */
  ghost function EncodeIds(s: set<int>): (b: seq<byte>)
    requires forall id :: id in s ==> IsInt64(id)
    decreases |s|
  {
    if s == {} then [] else
      var m := Least(s);
      EncodeInt64(m) + EncodeIds(s - {m})
  }

  ghost function EncodeChain(c: Chain): (b: seq<byte>)
    requires Encodable(c)
    decreases |c|
  {
    EncodeInt64(|c[0].restored|) + EncodeIds(c[0].restored) +
    if |c| == 1 then
      EncodeInt64(0)
    else
      assert Encodable(c[1..]);
      EncodeInt64(c[0].nextId) + (EncodeInt32(|c[0].nextName|) + (c[0].nextName + EncodeChain(c[1..])))
  }

  /** What a file holds after `written` has been stored in it without truncation. */
  function Overwrite(stale: seq<byte>, written: seq<byte>): (b: seq<byte>) {
    written + if |written| <= |stale| then stale[|written|..] else []
  }

  /** How many ids of the set come before this one. */
  ghost function Before(s: set<int>, id: int): nat {
    |set x | x in s && x < id|
  }

  /** The ids stand in ascending order, each in its eight bytes. */
  lemma {:induction false} IdsAscending(s: set<int>, id: int)
    requires id in s && forall x :: x in s ==> IsInt64(x)
    ensures |EncodeIds(s)| == 8 * |s| && Before(s, id) < |s|
    ensures EncodeIds(s)[8 * Before(s, id)..8 * Before(s, id) + 8] == EncodeInt64(id)
    decreases |s|
  {
    var m := Least(s);
    var rest := s - {m};
    IdsLength(rest);
    if id == m {
      assert (set x | x in s && x < id) == {};
      assert EncodeIds(s)[..8] == EncodeInt64(m);
    } else {
      IdsAscending(rest, id);
      assert (set x | x in s && x < id) == (set x | x in rest && x < id) + {m};
      var k := 8 * Before(rest, id);
      assert EncodeIds(s)[8 + k..8 + k + 8] == EncodeIds(rest)[k..k + 8];
    }
  }

  lemma {:induction false} IdsLength(s: set<int>)
    requires forall x :: x in s ==> IsInt64(x)
    ensures |EncodeIds(s)| == 8 * |s|
    decreases |s|
  {
    if s != {} { IdsLength(s - {Least(s)}); }
  }

  /** The parts of a record in their order: the number of ids and the ids, then the id, length and name of the next level, or zero. */
  lemma RecordText(c: Chain)
    requires Encodable(c)
    ensures |c| == 1 ==> EncodeChain(c) == EncodeInt64(|c[0].restored|) + EncodeIds(c[0].restored) + [0, 0, 0, 0, 0, 0, 0, 0]
    ensures |c| > 1 ==>
              && Encodable(c[1..])
              && EncodeChain(c) == EncodeInt64(|c[0].restored|) + EncodeIds(c[0].restored) + EncodeInt64(c[0].nextId) +
                                   EncodeInt32(|c[0].nextName|) + c[0].nextName + EncodeChain(c[1..])
  {
    if |c| == 1 {
      Int64Text(0);
    } else {
      hide EncodeInt64, EncodeInt32;
      assert Encodable(c[1..]);
      Flatten(EncodeInt64(|c[0].restored|) + EncodeIds(c[0].restored), EncodeInt64(c[0].nextId), EncodeInt32(|c[0].nextName|),
              c[0].nextName, EncodeChain(c[1..]));
    }
  }

  lemma Flatten(a: seq<byte>, b: seq<byte>, c: seq<byte>, d: seq<byte>, e: seq<byte>)
    ensures a + (b + (c + (d + e))) == a + b + c + d + e
  {
  }

  /** The file begins with what has been written, and keeps what an older and longer one has behind that. */
  lemma OverwriteText(stale: seq<byte>, written: seq<byte>)
    ensures var b := Overwrite(stale, written);
            && |b| == (if |written| >= |stale| then |written| else |stale|)
            && b[..|written|] == written && forall i :: |written| <= i < |b| ==> i < |stale| && b[i] == stale[i]
  {
  }

  // ----- reading -----

  /** Read `n` ids, adding them to `acc`. */
  function DecodeIds(b: seq<byte>, n: int, acc: set<int>): Option<(set<int>, seq<byte>)>
    decreases n
  {
    if n <= 0 then Some((acc, b))
    else if |b| < 8 then None
    else DecodeIds(b[8..], n - 1, acc + {DecodeInt64(b[..8])})
  }

  /** The count and the ids that open a level. */
  function DecodeRestored(b: seq<byte>): Option<(set<int>, seq<byte>)> {
    if |b| < 8 then None else DecodeIds(b[8..], DecodeInt64(b[..8]), {})
  }

  /** The length and the bytes of a name. */
  function DecodeName(b: seq<byte>): Option<(Name, seq<byte>)> {
    if |b| < 4 then None else
      var size := DecodeInt32(b[..4]);
      if size > PATH_MAX || size < 0 || |b| - 4 < size then None
      else Some((b[4..4 + size], b[4 + size..]))
  }

  lemma {:induction false} DecodeIdsShrinks(b: seq<byte>, n: int, acc: set<int>)
    ensures DecodeIds(b, n, acc).Some? ==> |DecodeIds(b, n, acc).value.1| <= |b|
    decreases n
  {
    if n > 0 && |b| >= 8 {
      DecodeIdsShrinks(b[8..], n - 1, acc + {DecodeInt64(b[..8])});
    }
  }

  /** Read a whole chain; the second component is what is left unread. */
  function DecodeChain(b: seq<byte>): (r: Option<(Chain, seq<byte>)>)
    ensures r.Some? ==> WellLinked(r.value.0)
    decreases |b|
  {
    var head := DecodeRestored(b);
    if head.None? then None else
      var (restored, afterIds) := head.value;
      assert |afterIds| < |b| by { DecodeIdsShrinks(b[8..], DecodeInt64(b[..8]), {}); }
      if |afterIds| < 8 then None else
        var nextId := DecodeInt64(afterIds[..8]);
        var afterNext := afterIds[8..];
        if nextId == 0 then
          Some(([Level(restored, 0, [])], afterNext))
        else
          var name := DecodeName(afterNext);
          if name.None? then None else
            var rest := DecodeChain(name.value.1);
            if rest.None? then None else
              var c := [Level(restored, nextId, name.value.0)] + rest.value.0;
              assert WellLinked(c);
              Some((c, rest.value.1))
  }

  // ----- the reader is the writer's inverse -----

  lemma DecodeIdsStep(id: seq<byte>, rest: seq<byte>, n: int, acc: set<int>)
    requires |id| == 8 && n > 0
    ensures DecodeIds(id + rest, n, acc) == DecodeIds(rest, n - 1, acc + {DecodeInt64(id)})
  {
    assert (id + rest)[..8] == id;
    assert (id + rest)[8..] == rest;
  }

  lemma {:induction false} IdsRoundTrip(s: set<int>, acc: set<int>, tail: seq<byte>)
    requires forall id :: id in s ==> IsInt64(id)
    ensures DecodeIds(EncodeIds(s) + tail, |s|, acc) == Some((acc + s, tail))
    decreases |s|
  {
    if s == {} {
      assert EncodeIds(s) + tail == tail;
      assert acc + s == acc;
    } else {
      var m := Least(s);
      var id, rest := EncodeInt64(m), EncodeIds(s - {m}) + tail;
      assert EncodeIds(s) + tail == id + rest;
      DecodeIdsStep(id, rest, |s|, acc);
      Int64RoundTrip(m);
      IdsRoundTrip(s - {m}, acc + {m}, tail);
      assert acc + {m} + (s - {m}) == acc + s;
    }
  }

  lemma RestoredRoundTrip(s: set<int>, tail: seq<byte>)
    requires |s| < TWO63 && forall id :: id in s ==> IsInt64(id)
    ensures DecodeRestored(EncodeInt64(|s|) + EncodeIds(s) + tail) == Some((s, tail))
  {
    var count, ids := EncodeInt64(|s|), EncodeIds(s) + tail;
    var b := count + EncodeIds(s) + tail;
    assert b == count + ids;
    assert b[..8] == count && b[8..] == ids;
    Int64RoundTrip(|s|);
    IdsRoundTrip(s, {}, tail);
    assert {} + s == s;
  }

  lemma NameRoundTrip(name: Name, tail: seq<byte>)
    requires |name| < TWO31
    ensures DecodeName(EncodeInt32(|name|) + (name + tail)) ==
            if |name| <= PATH_MAX then Some((name, tail)) else None
  {
    var b := EncodeInt32(|name|) + (name + tail);
    assert b[..4] == EncodeInt32(|name|);
    Int32RoundTrip(|name|);
    assert b[4..4 + |name|] == name;
    assert b[4 + |name|..] == tail;
  }

  lemma DecodeLastLevel(b: seq<byte>, s: set<int>, id: seq<byte>, tail: seq<byte>)
    requires |id| == 8 && DecodeInt64(id) == 0
    requires DecodeRestored(b) == Some((s, id + tail))
    ensures DecodeChain(b) == Some(([Level(s, 0, [])], tail))
  {
    assert (id + tail)[..8] == id;
    assert (id + tail)[8..] == tail;
  }

  lemma DecodeInnerLevel(b: seq<byte>, s: set<int>, id: seq<byte>, named: seq<byte>)
    requires |id| == 8 && DecodeInt64(id) != 0
    requires DecodeRestored(b) == Some((s, id + named))
    ensures DecodeChain(b) ==
            if DecodeName(named).None? then None else
              var (name, rest) := DecodeName(named).value;
              if DecodeChain(rest).None? then None else
                var (c, unread) := DecodeChain(rest).value;
                Some(([Level(s, DecodeInt64(id), name)] + c, unread))
  {
    assert (id + named)[..8] == id;
    assert (id + named)[8..] == named;
  }

  lemma RightNest(a: seq<byte>, b: seq<byte>, c: seq<byte>, d: seq<byte>, e: seq<byte>, tail: seq<byte>)
    ensures (a + (b + (c + (d + e)))) + tail == a + (b + (c + (d + (e + tail))))
  {
  }

  lemma NamesFitBufferSplit(c: Chain)
    requires |c| > 0
    ensures NamesFitBuffer(c) <==> |c[0].nextName| <= PATH_MAX && NamesFitBuffer(c[1..])
  {
    if |c[0].nextName| <= PATH_MAX && NamesFitBuffer(c[1..]) {
      forall i | 0 <= i < |c| ensures |c[i].nextName| <= PATH_MAX {
        if i > 0 { assert c[i] == c[1..][i - 1]; }
      }
    }
  }

  /**
   * For every chain and every bytes left behind it, reading what was written gives the
   * chain back and leaves the rest unread, exactly when every name fits the reader's
   * buffer; otherwise the reader rejects it.
   */
  lemma {:induction false} ChainRoundTrip(c: Chain, tail: seq<byte>)
    requires Encodable(c)
    ensures DecodeChain(EncodeChain(c) + tail) == if NamesFitBuffer(c) then Some((c, tail)) else None
    decreases |c|
  {
    var b := EncodeChain(c) + tail;
    var l := c[0];
    var head := EncodeInt64(|l.restored|) + EncodeIds(l.restored);
    var id := EncodeInt64(l.nextId);
    Int64RoundTrip(l.nextId);
    NamesFitBufferSplit(c);
    if |c| == 1 {
      assert b == head + (id + tail);
      RestoredRoundTrip(l.restored, id + tail);
      DecodeLastLevel(b, l.restored, id, tail);
      assert c == [Level(l.restored, 0, [])];
    } else {
      assert Encodable(c[1..]);
      var inner := EncodeChain(c[1..]);
      var size := EncodeInt32(|l.nextName|);
      var named := size + (l.nextName + (inner + tail));
      assert EncodeChain(c) == head + (id + (size + (l.nextName + inner)));
      RightNest(head, id, size, l.nextName, inner, tail);
      RestoredRoundTrip(l.restored, id + named);
      DecodeInnerLevel(b, l.restored, id, named);
      NameRoundTrip(l.nextName, inner + tail);
      ChainRoundTrip(c[1..], tail);
      assert c == [l] + c[1..];
    }
  }

  /** A record can be written whose reader rejects it: one name is a byte too long. */
  lemma LongNameRejected(id: int, tail: seq<byte>)
    requires IsInt64(id) && id != 0
    ensures var name: Name := seq(PATH_MAX + 1, _ => 0);
            var c := [Level({}, id, name), Level({}, 0, [])];
            Encodable(c) && DecodeChain(EncodeChain(c) + tail).None?
  {
    var name: Name := seq(PATH_MAX + 1, _ => 0);
    var c := [Level({}, id, name), Level({}, 0, [])];
    assert LevelFits(c[0]) && LevelFits(c[1]);
    assert |c[0].nextName| > PATH_MAX;
    ChainRoundTrip(c, tail);
  }

  // ----- the format delimits itself -----

  lemma {:induction false} DecodeIdsIgnoresTail(b: seq<byte>, n: int, acc: set<int>, tail: seq<byte>)
    requires DecodeIds(b, n, acc).Some?
    ensures DecodeIds(b + tail, n, acc) ==
            Some((DecodeIds(b, n, acc).value.0, DecodeIds(b, n, acc).value.1 + tail))
    decreases n
  {
    if n > 0 {
      assert (b + tail)[..8] == b[..8];
      assert (b + tail)[8..] == b[8..] + tail;
      DecodeIdsIgnoresTail(b[8..], n - 1, acc + {DecodeInt64(b[..8])}, tail);
    }
  }

  lemma DecodeRestoredIgnoresTail(b: seq<byte>, tail: seq<byte>)
    requires DecodeRestored(b).Some?
    ensures DecodeRestored(b + tail) ==
            Some((DecodeRestored(b).value.0, DecodeRestored(b).value.1 + tail))
  {
    assert (b + tail)[..8] == b[..8];
    assert (b + tail)[8..] == b[8..] + tail;
    DecodeIdsIgnoresTail(b[8..], DecodeInt64(b[..8]), {}, tail);
  }

  lemma DecodeNameIgnoresTail(b: seq<byte>, tail: seq<byte>)
    requires DecodeName(b).Some?
    ensures DecodeName(b + tail) == Some((DecodeName(b).value.0, DecodeName(b).value.1 + tail))
  {
    assert (b + tail)[..4] == b[..4];
    var size := DecodeInt32(b[..4]);
    assert (b + tail)[4..4 + size] == b[4..4 + size];
    assert (b + tail)[4 + size..] == b[4 + size..] + tail;
  }

  /** Whatever bytes are accepted, bytes after them change nothing and stay unread. */
  lemma {:induction false} DecodeChainIgnoresTail(b: seq<byte>, tail: seq<byte>)
    requires DecodeChain(b).Some?
    ensures DecodeChain(b + tail) == Some((DecodeChain(b).value.0, DecodeChain(b).value.1 + tail))
    decreases |b|
  {
    DecodeRestoredIgnoresTail(b, tail);
    var (restored, afterIds) := DecodeRestored(b).value;
    DecodeIdsShrinks(b[8..], DecodeInt64(b[..8]), {});
    assert (afterIds + tail)[..8] == afterIds[..8];
    assert (afterIds + tail)[8..] == afterIds[8..] + tail;
    if DecodeInt64(afterIds[..8]) != 0 {
      DecodeNameIgnoresTail(afterIds[8..], tail);
      DecodeChainIgnoresTail(DecodeName(afterIds[8..]).value.1, tail);
    }
  }

  /** No proper prefix of a written record is accepted as a record. */
  lemma StrictPrefixRejected(c: Chain, n: nat)
    requires Encodable(c) && NamesFitBuffer(c)
    requires n < |EncodeChain(c)|
    ensures DecodeChain(EncodeChain(c)[..n]).None?
  {
    var b := EncodeChain(c);
    ChainRoundTrip(c, []);
    assert b + [] == b;
    NoShorterRecord(b, n);
  }

  lemma NoShorterRecord(b: seq<byte>, n: nat)
    requires n < |b| && DecodeChain(b).Some? && DecodeChain(b).value.1 == []
    ensures DecodeChain(b[..n]).None?
  {
    hide DecodeChain;
    assert b[..n] + b[n..] == b;
    if DecodeChain(b[..n]).Some? {
      DecodeChainIgnoresTail(b[..n], b[n..]);
    }
  }

  /** Saving over any older file, longer or shorter, still loads the new record. */
  lemma OverwriteLoads(c: Chain, stale: seq<byte>)
    requires Encodable(c) && NamesFitBuffer(c)
    ensures DecodeChain(Overwrite(stale, EncodeChain(c))).Some?
    ensures DecodeChain(Overwrite(stale, EncodeChain(c))).value.0 == c
  {
    var b := EncodeChain(c);
    ChainRoundTrip(c, if |b| <= |stale| then stale[|b|..] else []);
  }
}
