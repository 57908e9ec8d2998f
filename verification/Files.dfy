/**
 Reading lines and saving and loading objects: rte_fs_fgets, fs_fread and
 fs_fwrite of rte/src/fs/rte_fs.c, pnal_save_file and pnal_load_file of
 rte/src/pnal.c. littlefs is not in the repository: a file is a byte sequence
 with a position, and each operation on it may fail or fall short.
 */
module Files {
  import opened Types

  type Bytes = seq<byte>

  /** How littlefs answers one operation: in full, with at most the given number
      of bytes, or with a negative error after having moved some bytes. */
  datatype Answer = Fine | Short(limit: nat) | Fails(moved: nat)

  /** How many bytes an operation moves that could move n. */
  function Moved(answer: Answer, n: nat): (m: nat)
    ensures m <= n && (answer.Fine? ==> m == n)
  {
    match answer
    case Fine => n
    case Short(limit) => Min(limit, n)
    case Fails(moved) => Min(moved, n)
  }

  /** The next answer, and those after it. */
  function First(answers: seq<Answer>): Answer {
    if answers == [] then Fine else answers[0]
  }

  function Later(answers: seq<Answer>): seq<Answer> {
    if answers == [] then [] else answers[1..]
  }

  lemma WholeOrNothing(got: nat, size: nat)
    requires got <= size && 0 < size
    ensures got / size == if got == size then 1 else 0
  {
  }

  /** fs_file_stream_t. The answers to come are used up one by one; after them
      every operation is fine. */
  class Stream {
    var content: Bytes
    var pos: nat
    var answers: seq<Answer>

    ghost predicate Valid()
      reads this
    {
      pos <= |content|
    }

    /** No answer to come is an error or short. */
    ghost predicate FaultFree()
      reads this
    {
      forall a :: a in answers ==> a == Fine
    }

    ghost function Rest(): Bytes
      reads this
      requires Valid()
    {
      content[pos..]
    }

    constructor (content: Bytes, answers: seq<Answer>)
      ensures Valid() && this.content == content && pos == 0 && this.answers == answers
    {
      this.content := content;
      pos := 0;
      this.answers := answers;
    }

    method NextAnswer() returns (answer: Answer)
      modifies `answers
      ensures answer == First(old(answers)) && answers == Later(old(answers))
      ensures old(FaultFree()) ==> answer == Fine && FaultFree()
    {
      answer := Fine;
      if answers != [] {
        assert answers[0] in answers && forall a :: a in answers[1..] ==> a in answers;
        answer := answers[0];
        answers := answers[1..];
      }
    }

    /** fs_fread with a count of 1: 1 if all size bytes were read, else 0. Any
        bytes read before that go to the front of ptr. */
    method FRead(ptr: array<byte>, size: nat) returns (n: nat)
      requires Valid() && 0 < size <= ptr.Length
      modifies `pos, `answers, ptr
      ensures Valid() && content == old(content)
      ensures n == 0 || n == 1
      ensures n == 1 <==> !First(old(answers)).Fails? && Moved(First(old(answers)), Min(size, |old(Rest())|)) == size
      ensures n == 1 ==> size <= |old(Rest())| && ptr[..size] == old(Rest())[..size] && Rest() == old(Rest())[size..]
      ensures n == 1 ==> ptr[size..] == old(ptr[size..])
      ensures old(FaultFree()) ==> FaultFree() && (n == 1 <==> size <= |old(Rest())|)
      ensures old(FaultFree()) && n == 0 ==> Rest() == []
    {
      ghost var was := ptr[..];
      var answer := NextAnswer();
      var got := Moved(answer, Min(size, |content| - pos));
      var i := 0;
      while i < got
        invariant i <= got && content == old(content) && pos == old(pos) && (old(FaultFree()) ==> FaultFree())
        invariant forall k :: 0 <= k < i ==> ptr[k] == content[pos + k]
        invariant forall k :: i <= k < ptr.Length ==> ptr[k] == was[k]
      {
        ptr[i] := content[pos + i];
        i := i + 1;
      }
      assert got == size ==> ptr[..size] == content[pos..pos + size];
      assert ptr[size..] == was[size..];
      pos := pos + got;
      WholeOrNothing(got, size);
      n := if answer.Fails? then 0 else got / size;
    }

    /** fs_fread of one byte into a local variable. */
    method ReadByte() returns (n: nat, c: byte)
      requires Valid()
      modifies `pos, `answers
      ensures Valid() && content == old(content)
      ensures n == 0 || n == 1
      ensures n == 1 ==> old(Rest()) == [c] + Rest()
      ensures old(FaultFree()) ==> FaultFree() && (n == 1 <==> old(Rest()) != []) && (n == 0 ==> Rest() == [])
    {
      var local := new byte[1];
      ghost var was := Rest();
      n := FRead(local, 1);
      c := local[0];
      assert n == 1 ==> was == was[..1] + was[1..] && local[..1] == [c];
    }

    /** fs_feof. tellOk and sizeOk say whether littlefs could tell the position
        and the size; if not, the file counts as not ended. */
    method FEof(tellOk: bool, sizeOk: bool) returns (ended: int)
      requires Valid()
      ensures ended == if tellOk && sizeOk && Rest() == [] then 1 else 0
    {
      if !tellOk || !sizeOk {
        return 0;
      }
      ended := if pos >= |content| then 1 else 0;
    }

    /** fs_fwrite with a count of 1, on a stream that stands at its end. */
    method FWrite(ptr: Bytes) returns (n: nat)
      requires Valid() && pos == |content| && 0 < |ptr|
      modifies `content, `pos, `answers
      ensures Valid() && pos == |content|
      ensures n == 0 || n == 1
      ensures n == 1 <==> !First(old(answers)).Fails? && Moved(First(old(answers)), |ptr|) == |ptr|
      ensures content == old(content) + ptr[..Moved(First(old(answers)), |ptr|)]
      ensures n == 1 ==> content == old(content) + ptr
      ensures old(FaultFree()) ==> FaultFree() && n == 1
    {
      var answer := NextAnswer();
      var put := Moved(answer, |ptr|);
      content := content + ptr[..put];
      pos := pos + put;
      WholeOrNothing(put, |ptr|);
      n := if answer.Fails? then 0 else put / |ptr|;
    }
  }

  // ----- lines

  /** A piece of a file as rte_fs_fgets cuts it: a newline only at the end, and
      no longer than the buffer allows. */
  ghost predicate IsChunk(c: Bytes, size: int) {
    0 < |c| <= size - 1 && forall i :: 0 <= i < |c| - 1 ==> c[i] != LF
  }

  /** The piece ends where a piece must: at a newline or at the buffer's size. */
  ghost predicate IsFull(c: Bytes, size: int) {
    IsChunk(c, size) && (|c| == size - 1 || c[|c| - 1] == LF)
  }

  /** rte_fs_fgets; null buffers and streams are refused like sizes below 1. The
      result is the number of bytes before the NUL, and 0 stands for NULL. */
  method FGets(buffer: array?<byte>, size: int, stream: Stream?) returns (n: nat)
    requires stream != null ==> stream.Valid()
    requires buffer != null ==> size <= buffer.Length
    modifies stream, buffer
    ensures stream != null ==> stream.Valid() && stream.content == old(stream.content)
    ensures buffer == null || size <= 1 || stream == null ==> n == 0
    ensures size == 1 && stream != null ==> stream.Rest() == old(stream.Rest())
    ensures n > 0 ==> n <= |old(stream.Rest())| && n < size && buffer[..n] == old(stream.Rest())[..n] &&
                      buffer[n] == NUL && IsChunk(buffer[..n], size)
    ensures buffer != null && stream != null && old(stream.FaultFree()) ==> stream.FaultFree()
    ensures buffer != null && stream != null && old(stream.FaultFree()) && size >= 2 ==>
              stream.Rest() == old(stream.Rest())[n..] &&
              (n == |old(stream.Rest())| || IsFull(buffer[..n], size)) &&
              (n == |old(stream.Rest())| || n == size - 1 || (n > 0 && buffer[n - 1] == 0x0A))
  {
    if buffer == null || size <= 0 || stream == null {
      return 0;
    }
    ghost var rest := stream.Rest();
    ghost var clean := stream.FaultFree();
    n := 0;
    var more := true;
    while more && n < size - 1
      invariant n <= size - 1 && n <= |rest| && stream.Valid() && stream.content == old(stream.content)
      invariant forall i :: 0 <= i < n ==> buffer[i] == rest[i]
      invariant more ==> stream.Rest() == rest[n..]
      invariant clean ==> stream.FaultFree() && stream.Rest() == rest[n..]
      invariant forall i :: 0 <= i < n - 1 ==> rest[i] != LF
      invariant more && n > 0 ==> rest[n - 1] != LF
      invariant !more && clean ==> n == |rest| || (n > 0 && rest[n - 1] == LF)
      invariant size == 1 ==> more && n == 0
      decreases size - n, more
    {
      var res, c := stream.ReadByte();
      if res <= 0 {
        more := false;
      } else {
        FrontOf(rest, n, c, stream.Rest());
        buffer[n] := c;
        n := n + 1;
        if c == LF {
          more := false;
        }
      }
    }
    buffer[n] := NUL;
    assert buffer[..n] == rest[..n];
  }

  function Concat(chunks: seq<Bytes>): Bytes {
    if chunks == [] then [] else Concat(chunks[..|chunks| - 1]) + chunks[|chunks| - 1]
  }

  lemma ConcatSnoc(chunks: seq<Bytes>, rest: Bytes, n: nat)
    requires n <= |rest|
    ensures Concat(chunks + [rest[..n]]) + rest[n..] == Concat(chunks) + rest
  {
    assert (chunks + [rest[..n]])[..|chunks|] == chunks;
    assert (Concat(chunks) + rest[..n]) + rest[n..] == Concat(chunks) + (rest[..n] + rest[n..]);
    assert rest[..n] + rest[n..] == rest;
  }

  /** Calling rte_fs_fgets until it returns NULL, on a file without faults, and
      then asking fs_feof whether that was the end. The pieces are whole lines or
      buffers, except perhaps the last; put together they are the rest of the
      file exactly when the buffer has room for a byte or nothing was left, and
      exactly then fs_feof says that the file has ended. */
  method ReadLines(stream: Stream, size: nat) returns (chunks: seq<Bytes>, ended: int)
    requires stream.Valid() && stream.FaultFree() && size >= 1
    modifies stream
    ensures Concat(chunks) == old(stream.Rest()) <==> size >= 2 || old(stream.Rest()) == []
    ensures ended == 1 <==> Concat(chunks) == old(stream.Rest())
    ensures stream.Valid() && stream.Rest() == if size >= 2 then [] else old(stream.Rest())
    ensures forall i :: 0 <= i < |chunks| ==> IsChunk(chunks[i], size)
    ensures forall i :: 0 <= i < |chunks| - 1 ==> IsFull(chunks[i], size)
  {
    ghost var all := stream.Rest();
    var buffer := new byte[size];
    chunks := [];
    var n: nat := FGets(buffer, size, stream);
    ghost var rest := all;
    while n > 0
      invariant stream.Valid() && stream.FaultFree() && fresh(buffer) && buffer.Length == size
      invariant n < size
      invariant n > 0 ==> n <= |rest| && buffer[..n] == rest[..n] && IsChunk(buffer[..n], size)
      invariant size >= 2 ==> n <= |rest| && stream.Rest() == rest[n..] && Concat(chunks) + rest == all
      invariant size >= 2 ==> n == |rest| || IsFull(buffer[..n], size)
      invariant size == 1 ==> n == 0 && chunks == [] && stream.Rest() == all
      invariant forall i :: 0 <= i < |chunks| ==> IsChunk(chunks[i], size)
      invariant forall i :: 0 <= i < |chunks| - 1 ==> IsFull(chunks[i], size)
      invariant chunks != [] && rest != [] ==> IsFull(chunks[|chunks| - 1], size)
      decreases |rest|, n
    {
      var chunk := buffer[..n];
      if size >= 2 {
        ConcatSnoc(chunks, rest, n);
      }
      rest := rest[n..];
      chunks := chunks + [chunk];
      n := FGets(buffer, size, stream);
    }
    assert size >= 2 ==> rest == [];
    ended := stream.FEof(true, true);
  }

  // ----- saving and loading

  /** The file system: what is stored under each path. */
  class FileSystem {
    var files: map<string, Bytes>

    constructor ()
      ensures files == map[]
    {
      files := map[];
    }

    /** pnal_save_file. openOk and closeOk say whether lfs_file_open and
        lfs_file_close succeed; a file is stored by a close that succeeds. */
    method Save(path: string, object1: Bytes, object2: Bytes, openOk: bool, answers: seq<Answer>, closeOk: bool)
      returns (ret: int)
      modifies this
      ensures ret == 0 || ret == -1
      ensures ret == 0 ==> openOk && closeOk && files == old(files)[path := object1 + object2]
      ensures !openOk || !closeOk ==> ret == -1 && files == old(files)
      ensures openOk && closeOk && (forall a :: a in answers ==> a == Fine) ==> ret == 0
      ensures files - {path} == old(files) - {path}
    {
      ret := 0;
      if !openOk {
        return -1;
      }
      var file := new Stream([], answers);
      if |object1| > 0 {
        var n := file.FWrite(object1);
        if n != 1 {
          ret := -1;
        }
      }
      if |object2| > 0 && ret == 0 {
        var n := file.FWrite(object2);
        if n != 1 {
          ret := -1;
        }
      }
      assert ret == 0 ==> file.content == object1 + object2;
      if closeOk {
        files := files[path := file.content];
      } else {
        ret := -1;
      }
    }

    /** pnal_load_file. openOk and closeOk say whether lfs_file_open of a file
        that exists and lfs_file_close succeed. */
    method Load(path: string, object1: array<byte>, object2: array<byte>, openOk: bool, answers: seq<Answer>,
                closeOk: bool)
      returns (ret: int)
      requires object1 != object2
      modifies object1, object2
      ensures ret == 0 || ret == -1
      ensures ret == 0 ==>
                openOk && closeOk && path in files && object1.Length + object2.Length <= |files[path]| &&
                object1[..] + object2[..] == files[path][..object1.Length + object2.Length]
      ensures openOk && closeOk && (forall a :: a in answers ==> a == Fine) ==>
                (ret == 0 <==> path in files && object1.Length + object2.Length <= |files[path]|)
    {
      ret := 0;
      if !openOk || path !in files {
        return -1;
      }
      var file := new Stream(files[path], answers);
      if object1.Length > 0 {
        var n := file.FRead(object1, object1.Length);
        if n != 1 {
          ret := -1;
        }
      }
      if object2.Length > 0 && ret == 0 {
        var n := file.FRead(object2, object2.Length);
        if n != 1 {
          ret := -1;
        }
      }
      if !closeOk {
        ret := -1;
      }
    }
  }

  /** A save that reports success, under any pattern of failing and short
      writes, is loaded back: a fault-free load with the same sizes succeeds and
      returns both objects, and one that asks for more bytes fails. */
  method SaveThenLoad(fs: FileSystem, path: string, object1: Bytes, object2: Bytes, openOk: bool, answers: seq<Answer>,
                      closeOk: bool, size1: nat, size2: nat)
    returns (saved: int, loaded: int, back1: array<byte>, back2: array<byte>)
    modifies fs
    ensures saved == 0 && size1 == |object1| && size2 == |object2| ==>
              loaded == 0 && back1[..] == object1 && back2[..] == object2
    ensures saved == 0 ==> (loaded == 0 <==> size1 + size2 <= |object1| + |object2|)
  {
    saved := fs.Save(path, object1, object2, openOk, answers, closeOk);
    back1 := new byte[size1];
    back2 := new byte[size2];
    loaded := fs.Load(path, back1, back2, true, [], true);
    if saved == 0 && size1 == |object1| && size2 == |object2| {
      assert (back1[..] + back2[..])[..size1] == (object1 + object2)[..size1];
      assert (back1[..] + back2[..])[size1..] == (object1 + object2)[size1..];
    }
  }
}
