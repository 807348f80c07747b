/** The linked levels of src/Restore.cc and the methods that write and read them. */
module ResumeInfo {
  import opened Common
  import opened Bytes
  import opened ResumeRecord

  /** A byte stream: writes go to the end, reads come from the front. */
  class ByteStream {
    var data: seq<byte>

    constructor (initial: seq<byte>)
      ensures data == initial
    {
      data := initial;
    }

    method Write(b: seq<byte>)
      modifies this
      ensures data == old(data) + b
    {
      data := data + b;
    }

    /** All of `n` bytes or failure; what a failed read consumes is not specified. */
    method ReadFullBuffer(n: int) returns (ok: bool, b: seq<byte>)
      modifies this
      ensures ok == (0 <= n <= |old(data)|)
      ensures ok ==> b == old(data)[..n] && data == old(data)[n..]
    {
      ok := 0 <= n <= |data|;
      if ok {
        b, data := data[..n], data[n..];
      } else {
        b, data := [], [];
      }
    }
  }

  class RestoreResumeInfo {
    /** Objects of this level which have been restored already. */
    var restored: set<int>
    var nextId: int
    var next: RestoreResumeInfo?
    var nextName: Name
    /** The distance from the outermost level, which keeps the levels of a chain apart. */
    ghost const depth: nat

    constructor (ghost depth: nat)
      ensures IsEmpty() && this.depth == depth
    {
      restored, nextId, next, nextName := {}, 0, null, [];
      this.depth := depth;
    }

    ghost predicate IsEmpty()
      reads this
    {
      restored == {} && nextId == 0 && next == null && nextName == []
    }

    ghost function AsLevel(): Level
      reads this
    {
      Level(restored, nextId, nextName)
    }

    method AddLevel(id: int, localName: Name) returns (added: RestoreResumeInfo)
      requires next == null && nextId == 0
      modifies this
      ensures fresh(added) && added.IsEmpty() && next == added && added.depth == depth + 1
      ensures AsLevel() == Level(old(restored), id, localName)
    {
      added := new RestoreResumeInfo(depth + 1);
      next, nextId, nextName := added, id, localName;
    }

    method RemoveLevel()
      requires next != null && nextId != 0
      modifies this
      ensures next == null
      ensures AsLevel() == Level(old(restored), 0, [])
    {
      next, nextId, nextName := null, 0, [];
    }

    /** Append this level and the ones below it, in spine order, to the stream. */
    method SaveLevel(stream: ByteStream, ghost spine: seq<RestoreResumeInfo>, ghost c: Chain)
      requires Represents(spine, c) && spine[0] == this
      requires Encodable(c)
      modifies stream
      ensures stream.data == old(stream.data) + EncodeChain(c)
      decreases |spine|
    {
      ghost var before := stream.data;
      assert c[0] == AsLevel() && LevelFits(c[0]);
      assert |spine| == |c| && (|spine| > 1 ==> spine[0].next == spine[1]);
      stream.Write(EncodeInt64(|restored|));
      WriteRestored(stream);
      if next != null {
        assert next == spine[1];
        WriteNext(stream);
        next.SaveLevel(stream, spine[1..], c[1..]);
        SavedInner(before, c, stream.data);
      } else {
        stream.Write(EncodeInt64(0));
        assert |c| == 1;
        SavedLast(before, c, stream.data);
      }
    }

    /** The id and the name of the next level. */
    method WriteNext(stream: ByteStream)
      requires LevelFits(AsLevel())
      modifies stream
      ensures stream.data == old(stream.data) + EncodeInt64(nextId) + EncodeInt32(|nextName|) + nextName
    {
      stream.Write(EncodeInt64(nextId));
      stream.Write(EncodeInt32(|nextName|));
      stream.Write(nextName);
    }

    method WriteRestored(stream: ByteStream)
      requires forall id :: id in restored ==> IsInt64(id)
      modifies stream
      ensures stream.data == old(stream.data) + EncodeIds(restored)
    {
      var todo := restored;
      while todo != {}
        invariant todo <= restored
        invariant stream.data + EncodeIds(todo) == old(stream.data) + EncodeIds(restored)
      {
        LeastExists(todo);
        var id :| id in todo && forall x :: x in todo ==> id <= x;
        assert id == Least(todo);
        LeastComesFirst(stream.data, todo);
        stream.Write(EncodeInt64(id));
        todo := todo - {id};
      }
      assert stream.data + [] == stream.data;
    }

    /** The count of restored objects and their ids. */
    method ReadRestored(stream: ByteStream) returns (ok: bool)
      modifies this`restored, stream
      ensures ok == DecodeRestored(old(stream.data)).Some?
      ensures ok ==> DecodeRestored(old(stream.data)) == Some((restored, stream.data))
    {
      restored := {};
      var numBytes;
      ok, numBytes := stream.ReadFullBuffer(INT64_SIZE);
      if !ok { return; }
      var numObjects := DecodeInt64(numBytes);
      var o := 0;
      while o < numObjects
        invariant 0 <= o && (o <= numObjects || o == 0)
        invariant DecodeRestored(old(stream.data)) == DecodeIds(stream.data, numObjects - o, restored)
      {
        var idBytes;
        ok, idBytes := stream.ReadFullBuffer(INT64_SIZE);
        if !ok { return; }
        restored := restored + {DecodeInt64(idBytes)};
        o := o + 1;
      }
      ok := true;
    }

    method ReadName(stream: ByteStream) returns (ok: bool, name: Name)
      modifies stream
      ensures ok == DecodeName(old(stream.data)).Some?
      ensures ok ==> DecodeName(old(stream.data)) == Some((name, stream.data))
    {
      ghost var b := stream.data;
      var sizeBytes;
      name := [];
      ok, sizeBytes := stream.ReadFullBuffer(INT32_SIZE);
      if !ok { return; }
      var size := DecodeInt32(sizeBytes);
      if size > PATH_MAX { ok := false; return; }
      ok, name := stream.ReadFullBuffer(size);
      if ok {
        assert name == b[4..4 + size] && stream.data == b[4 + size..];
      }
    }

    /** Read this level and the ones below it; a failure leaves the levels half read. */
    method LoadLevel(stream: ByteStream) returns (ok: bool, ghost spine: seq<RestoreResumeInfo>)
      requires next == null && nextId == 0 && nextName == []
      modifies this, stream
      ensures ok == DecodeChain(old(stream.data)).Some?
      ensures ok ==> |spine| > 0 && spine[0] == this
      ensures ok ==> forall i :: 1 <= i < |spine| ==> fresh(spine[i])
      ensures ok ==> Represents(spine, DecodeChain(old(stream.data)).value.0)
      ensures ok ==> stream.data == DecodeChain(old(stream.data)).value.1
      decreases |stream.data|, 1
    {
      ghost var b := stream.data;
      spine := [this];
      ok := ReadRestored(stream);
      if !ok { return; }
      DecodeIdsShrinks(b[8..], DecodeInt64(b[..8]), {});
      var idBytes;
      ok, idBytes := stream.ReadFullBuffer(INT64_SIZE);
      if !ok { return; }
      var id := DecodeInt64(idBytes);
      if id != 0 {
        ok, spine := LoadNext(stream, id);
      }
    }

    /** The name of the next level, and then the next level itself. */
    method LoadNext(stream: ByteStream, id: int) returns (ok: bool, ghost spine: seq<RestoreResumeInfo>)
      requires next == null && id != 0
      modifies this, stream
      ensures restored == old(restored)
      ensures ok == (DecodeName(old(stream.data)).Some? &&
                     DecodeChain(DecodeName(old(stream.data)).value.1).Some?)
      ensures ok ==> |spine| > 0 && spine[0] == this
      ensures ok ==> forall i :: 1 <= i < |spine| ==> fresh(spine[i])
      ensures ok ==>
        var (name, rest) := DecodeName(old(stream.data)).value;
        var (c, unread) := DecodeChain(rest).value;
        && Represents(spine, [Level(restored, id, name)] + c)
        && stream.data == unread
      decreases |stream.data|, 0
    {
      var name;
      spine := [this];
      ok, name := ReadName(stream);
      if !ok { return; }
      ghost var below, afterName := [], stream.data;
      next := new RestoreResumeInfo(depth + 1);
      nextId, nextName := id, name;
      ok, below := next.LoadLevel(stream);
      if !ok { return; }
      PrependLevel(this, below, DecodeChain(afterName).value.0);
      spine := [this] + below;
    }
  }

  /** `spine` lists the linked levels from the outermost in, and `c` is what they hold. */
  ghost predicate Represents(spine: seq<RestoreResumeInfo>, c: Chain)
    reads spine
  {
    && |spine| == |c|
    && WellLinked(c)
    && (forall i :: 0 <= i < |spine| ==> spine[i].depth == spine[0].depth + i)
    && (forall i :: 0 <= i < |c| ==> c[i] == spine[i].AsLevel())
    && (forall i :: 0 <= i < |spine| - 1 ==> spine[i].next == spine[i + 1])
    && spine[|spine| - 1].next == null
  }

  lemma PrependLevel(level: RestoreResumeInfo, below: seq<RestoreResumeInfo>, c: Chain)
    requires Represents(below, c)
    requires level.next == below[0] && below[0].depth == level.depth + 1 && level.nextId != 0
    ensures Represents([level] + below, [level.AsLevel()] + c)
  {
    var spine, d := [level] + below, [level.AsLevel()] + c;
    assert forall i :: 1 <= i < |spine| ==> spine[i] == below[i - 1] && d[i] == c[i - 1];
  }

  lemma LeastComesFirst(before: seq<byte>, s: set<int>)
    requires s != {} && forall id :: id in s ==> IsInt64(id)
    ensures before + EncodeIds(s) == before + EncodeInt64(Least(s)) + EncodeIds(s - {Least(s)})
  {
  }

  lemma SavedInner(before: seq<byte>, c: Chain, after: seq<byte>)
    requires Encodable(c) && |c| > 1 && Encodable(c[1..])
    requires after == before + EncodeInt64(|c[0].restored|) + EncodeIds(c[0].restored) + EncodeInt64(c[0].nextId) +
                      EncodeInt32(|c[0].nextName|) + c[0].nextName + EncodeChain(c[1..])
    ensures after == before + EncodeChain(c)
  {
    Reassociate(before, EncodeInt64(|c[0].restored|), EncodeIds(c[0].restored), EncodeInt64(c[0].nextId),
                EncodeInt32(|c[0].nextName|), c[0].nextName, EncodeChain(c[1..]));
  }

  lemma SavedLast(before: seq<byte>, c: Chain, after: seq<byte>)
    requires Encodable(c) && |c| == 1
    requires after == before + EncodeInt64(|c[0].restored|) + EncodeIds(c[0].restored) + EncodeInt64(0)
    ensures after == before + EncodeChain(c)
  {
    hide EncodeInt64, EncodeIds;
    var a, b, z := EncodeInt64(|c[0].restored|), EncodeIds(c[0].restored), EncodeInt64(0);
    assert EncodeChain(c) == a + b + z;
    hide EncodeChain;
    assert before + a + b + z == before + (a + b + z);
  }

  lemma Reassociate(a: seq<byte>, b: seq<byte>, c: seq<byte>, d: seq<byte>, e: seq<byte>, f: seq<byte>, g: seq<byte>)
    ensures a + b + c + d + e + f + g == a + (b + c + (d + (e + (f + g))))
  {
  }
}
