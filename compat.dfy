/** libc replacements from libsmb2's compat layer (lib/compat.c) for the
    ports that lack them: writev and readv through one bounce buffer, poll
    on top of select, and the C standard's example random generator. The
    calls they end in (write, read, select) and whether malloc succeeds are
    parameters. */
module Compat {
  import opened Wrappers

  type byte = x: int | 0 <= x < 256

  /** size_t and ssize_t on the 32-bit targets that use this layer. */
  const SIZE_MAX: nat := 0xFFFF_FFFF
  const SSIZE_MAX: nat := 0x7FFF_FFFF
  const EINVAL: int := 22

  // ---------------------------------------------------------------------
  // writev and readv

  function Total(lens: seq<nat>): nat {
    if lens == [] then 0 else lens[0] + Total(lens[1..])
  }

  /** The segment lengths, as the loops read them. */
  function Lens(segs: seq<seq<byte>>): seq<nat> {
    seq(|segs|, i requires 0 <= i < |segs| => |segs[i]|)
  }

  /** The length loop of writev and readv: the total of the segment
      lengths, or None when adding the next length would pass `limit`.
      Lengths are never negative, so it fails exactly when the whole total
      passes `limit`. */
  method SumLengths(lens: seq<nat>, limit: nat) returns (total: Option<nat>)
    ensures total.None? <==> Total(lens) > limit
    ensures total.Some? ==> total.value == Total(lens)
  {
    var bytes := 0;
    var i := 0;
    assert lens[0..] == lens;
    while i < |lens|
      invariant i <= |lens| && bytes <= limit
      invariant bytes + Total(lens[i..]) == Total(lens)
    {
      assert lens[i..][1..] == lens[i + 1..];
      if limit - bytes < lens[i] {
        return None;
      }
      bytes := bytes + lens[i];
      i := i + 1;
    }
    return Some(bytes);
  }

  /** The check as written: `(ssize_t)-1 - bytes` is computed in size_t,
      so the limit is SIZE_MAX. */
  method SumLengthsAsWritten(lens: seq<nat>) returns (total: Option<nat>)
    ensures total.None? <==> Total(lens) > SIZE_MAX
    ensures total.Some? ==> total.value == Total(lens)
  {
    total := SumLengths(lens, SIZE_MAX);
  }

  /** A single segment of SSIZE_MAX + 1 bytes passes the check as written,
      although no ssize_t can count the bytes transferred. */
  lemma {:induction false} AsWrittenAdmitsOverlong()
    ensures Total([SSIZE_MAX + 1]) <= SIZE_MAX && Total([SSIZE_MAX + 1]) > SSIZE_MAX
  {
    assert [SSIZE_MAX + 1][1..] == [];
  }

  /** The segments one after the other. */
  function Concat(segs: seq<seq<byte>>): (r: seq<byte>)
    ensures |r| == Total(Lens(segs))
  {
    if segs == [] then []
    else
      assert Lens(segs)[1..] == Lens(segs[1..]);
      segs[0] + Concat(segs[1..])
  }

  /** memcpy of `src` into `dst` at `at`. */
  method CopyIn(dst: array<byte>, at: nat, src: seq<byte>)
    requires at + |src| <= dst.Length
    modifies dst
    ensures dst[..] == old(dst[..at]) + src + old(dst[at + |src|..])
  {
    var k := 0;
    while k < |src|
      invariant k <= |src|
      invariant forall j :: 0 <= j < dst.Length ==> dst[j] == if at <= j < at + k then src[j - at] else old(dst[j])
    {
      dst[at + k] := src[k];
      k := k + 1;
    }
    assert dst[..] == old(dst[..at]) + src + old(dst[at + |src|..]) by {
      forall j | 0 <= j < dst.Length
        ensures dst[..][j] == (old(dst[..at]) + src + old(dst[at + |src|..]))[j]
      {
      }
    }
  }

  lemma {:induction false} ConcatAt(segs: seq<seq<byte>>, i: nat)
    requires i < |segs|
    ensures Concat(segs[i..]) == segs[i] + Concat(segs[i + 1..])
  {
    assert segs[i..][1..] == segs[i + 1..];
  }

  /** One more segment copied keeps the buffer a prefix of the gathered
      segments. */
  lemma {:induction false} GatherStep(vector: seq<seq<byte>>, i: nat, prefix: seq<byte>, grown: seq<byte>)
    requires i < |vector| && prefix + Concat(vector[i..]) == Concat(vector)
    requires grown == prefix + vector[i]
    ensures grown + Concat(vector[i + 1..]) == Concat(vector)
  {
    ConcatAt(vector, i);
  }

  /** The gather loop: the segments copied in order into `buffer`, which is
      exactly as long as all of them. */
  method Gather(vector: seq<seq<byte>>, buffer: array<byte>)
    requires buffer.Length == Total(Lens(vector))
    modifies buffer
    ensures buffer[..] == Concat(vector)
  {
    var toCopy := buffer.Length;
    var bp := 0;
    var i := 0;
    assert vector[0..] == vector;
    while i < |vector|
      invariant i <= |vector| && 0 <= toCopy && bp + toCopy == buffer.Length
      invariant buffer[..bp] + Concat(vector[i..]) == Concat(vector)
      invariant |Concat(vector[i..])| == toCopy
    {
      ConcatAt(vector, i);
      var copy := if |vector[i]| < toCopy then |vector[i]| else toCopy;
      assert copy == |vector[i]|;
      ghost var prefix := buffer[..bp];
      CopyIn(buffer, bp, vector[i][..copy]);
      assert buffer[..bp + copy] == prefix + vector[i];
      GatherStep(vector, i, prefix, buffer[..bp + copy]);
      bp, toCopy := bp + copy, toCopy - copy;
      i := i + 1;
      if toCopy == 0 {
        break;
      }
    }
    assert buffer[..] == buffer[..bp];
  }

  /** writev: the segments gathered in order into one buffer of their total
      length and handed to a single write, whose result is returned. The
      total is checked against `limit`: SIZE_MAX in the code as written (see
      SumLengthsAsWritten), SSIZE_MAX as intended. */
  method Writev(vector: seq<seq<byte>>, limit: nat, mallocOk: bool, write: seq<byte> -> int)
    returns (rc: int, errno: Option<int>, written: Option<seq<byte>>)
    ensures Total(Lens(vector)) > limit ==> rc == -1 && errno == Some(EINVAL) && written == None
    ensures Total(Lens(vector)) <= limit ==> errno == None
    ensures Total(Lens(vector)) <= limit && !mallocOk ==> rc == -1 && written == None
    ensures Total(Lens(vector)) <= limit && mallocOk ==>
      written == Some(Concat(vector)) && rc == write(Concat(vector))
  {
    var total := SumLengths(Lens(vector), limit);
    if total.None? {
      return -1, Some(EINVAL), None;
    }
    if !mallocOk {
      return -1, None, None;
    }
    var buffer := new byte[total.value];
    Gather(vector, buffer);
    written := Some(buffer[..]);
    rc := write(buffer[..]);
    errno := None;
  }

  /** What the segments hold once `data` is scattered over them in order:
      each takes as many bytes as fit or remain and keeps the rest of its
      old contents. */
  function Scatter(olds: seq<seq<byte>>, data: seq<byte>): (r: seq<seq<byte>>)
    ensures |r| == |olds|
  {
    if olds == [] then []
    else
      var c := if |olds[0]| < |data| then |olds[0]| else |data|;
      [data[..c] + olds[0][c..]] + Scatter(olds[1..], data[c..])
  }

  /** Scattering nothing leaves every segment as it was. */
  lemma {:induction false} ScatterNothing(olds: seq<seq<byte>>)
    ensures Scatter(olds, []) == olds
  {
    if olds != [] {
      var empty: seq<byte> := [];
      ScatterNothing(olds[1..]);
      assert olds[0][0..] == olds[0];
      assert empty[0..] == empty && empty[..0] == empty;
      var head := empty[..0] + olds[0][0..];
      assert head == olds[0];
      assert Scatter(olds, empty) == [head] + Scatter(olds[1..], empty[0..]);
      assert olds == [olds[0]] + olds[1..];
    }
  }

  /** The first segment scattered, then the rest. */
  lemma {:induction false} ScatterHead(olds: seq<seq<byte>>, data: seq<byte>, c: nat)
    requires olds != [] && c == if |olds[0]| < |data| then |olds[0]| else |data|
    ensures Concat(Scatter(olds, data)) == data[..c] + olds[0][c..] + Concat(Scatter(olds[1..], data[c..]))
  {
    var sc := Scatter(olds, data);
    assert sc[0] == data[..c] + olds[0][c..];
    assert sc[1..] == Scatter(olds[1..], data[c..]);
  }

  /** The scattered segments are as long as before. */
  lemma {:induction false} ScatterLens(olds: seq<seq<byte>>, data: seq<byte>)
    ensures Lens(Scatter(olds, data)) == Lens(olds)
  {
    if olds != [] {
      var c := if |olds[0]| < |data| then |olds[0]| else |data|;
      var sc := Scatter(olds, data);
      assert sc[1..] == Scatter(olds[1..], data[c..]);
      ScatterLens(olds[1..], data[c..]);
      forall i | 0 <= i < |olds| ensures |sc[i]| == |olds[i]| {
        if i > 0 {
          assert sc[i] == sc[1..][i - 1] && olds[i] == olds[1..][i - 1];
          assert Lens(sc[1..])[i - 1] == Lens(olds[1..])[i - 1];
        }
      }
    }
  }

  /** A segment that took `c` bytes, followed by segments holding the rest
      of the data first, holds the data first. */
  lemma {:induction false} PrefixOfPieces(data: seq<byte>, head: seq<byte>, c: nat, rest: seq<byte>)
    requires c <= |data| && c <= |head| && (c == |head| || c == |data|)
    requires |data| - c <= |rest| && rest[..|data| - c] == data[c..]
    ensures |data| <= |data[..c] + head[c..] + rest|
    ensures (data[..c] + head[c..] + rest)[..|data|] == data
  {
    if c == |head| {
      assert head[c..] == [];
      assert (data[..c] + head[c..] + rest)[..|data|] == data[..c] + rest[..|data| - c];
      assert data == data[..c] + data[c..];
    } else {
      assert data[..c] == data;
    }
  }

  /** Gathering the scattered segments gives the data back first, followed
      by what the read did not reach; a read that fills the segments comes
      back whole. */
  lemma {:induction false} ScatterThenGather(olds: seq<seq<byte>>, data: seq<byte>)
    requires |data| <= Total(Lens(olds))
    ensures |Concat(Scatter(olds, data))| == Total(Lens(olds))
    ensures Concat(Scatter(olds, data))[..|data|] == data
    ensures |data| == Total(Lens(olds)) ==> Concat(Scatter(olds, data)) == data
  {
    ScatterLens(olds, data);
    if olds != [] {
      var c := if |olds[0]| < |data| then |olds[0]| else |data|;
      assert Lens(olds)[1..] == Lens(olds[1..]);
      ScatterThenGather(olds[1..], data[c..]);
      ScatterHead(olds, data, c);
      PrefixOfPieces(data, olds[0], c, Concat(Scatter(olds[1..], data[c..])));
    }
  }

  /** The segments' current contents. */
  function Contents(segs: seq<array<byte>>): seq<seq<byte>>
    reads segs
  {
    seq(|segs|, i requires 0 <= i < |segs| reads segs => segs[i][..])
  }

  /** The lengths of the iovec array. */
  function ArrayLens(segs: seq<array<byte>>): seq<nat>
  {
    seq(|segs|, i requires 0 <= i < |segs| => segs[i].Length)
  }

  /** Where the loop stands after `i` segments and `bp` bytes: the next
      segment takes what fits or remains, and the rest follows. */
  lemma {:induction false} ScatterStep(olds: seq<seq<byte>>, data: seq<byte>, i: nat, bp: nat, copy: nat)
    requires i < |olds| && bp <= |data|
    requires Scatter(olds, data)[i..] == Scatter(olds[i..], data[bp..])
    requires copy == if |olds[i]| < |data| - bp then |olds[i]| else |data| - bp
    ensures Scatter(olds, data)[i] == data[bp..bp + copy] + olds[i][copy..]
    ensures Scatter(olds, data)[i + 1..] == Scatter(olds[i + 1..], data[bp + copy..])
  {
    var t := Scatter(olds[i..], data[bp..]);
    assert olds[i..][0] == olds[i] && olds[i..][1..] == olds[i + 1..];
    assert data[bp..][..copy] == data[bp..bp + copy] && data[bp..][copy..] == data[bp + copy..];
    assert t[0] == data[bp..bp + copy] + olds[i][copy..];
    assert t[1..] == Scatter(olds[i + 1..], data[bp + copy..]);
    assert Scatter(olds, data)[i] == Scatter(olds, data)[i..][0];
    assert Scatter(olds, data)[i + 1..] == Scatter(olds, data)[i..][1..];
  }

  /** Once the data is used up, the remaining segments keep their contents. */
  lemma {:induction false} ScatterRest(olds: seq<seq<byte>>, data: seq<byte>, i: nat, bp: nat)
    requires i <= |olds| && bp == |data|
    requires Scatter(olds, data)[i..] == Scatter(olds[i..], data[bp..])
    ensures Scatter(olds, data)[..i] + olds[i..] == Scatter(olds, data)
  {
    var done := Scatter(olds, data);
    assert data[bp..] == [];
    ScatterNothing(olds[i..]);
    assert done[..i] + done[i..] == done;
  }

  /** Where the loop stands, segment i still holds what it held. */
  lemma {:induction false} Unwritten(segs: seq<array<byte>>, done: seq<seq<byte>>, olds: seq<seq<byte>>, i: nat)
    requires i < |segs| == |done| == |olds|
    requires Contents(segs) == done[..i] + olds[i..]
    ensures segs[i][..] == olds[i]
  {
    assert Contents(segs)[i] == (done[..i] + olds[i..])[i];
  }

  /** One segment's copy: `chunk` over the front of segment i, which then
      holds its scattered contents `done[i]`; the other segments are
      untouched. */
  method CopyToSegment(segs: seq<array<byte>>, i: nat, chunk: seq<byte>,
                       ghost done: seq<seq<byte>>, ghost olds: seq<seq<byte>>)
    requires forall i, j :: 0 <= i < j < |segs| ==> segs[i] != segs[j]
    requires i < |segs| == |done| == |olds| && |chunk| <= |olds[i]| == segs[i].Length
    requires Contents(segs) == done[..i] + olds[i..]
    requires chunk + olds[i][|chunk|..] == done[i]
    modifies segs[i]
    ensures Contents(segs) == done[..i + 1] + olds[i + 1..]
  {
    Unwritten(segs, done, olds, i);
    CopyIn(segs[i], 0, chunk);
    assert segs[i][..] == done[i];
    forall j | 0 <= j < |segs| && j != i ensures segs[j][..] == old(segs[j][..]) {
      assert segs[j] != segs[i];
    }
    assert Contents(segs) == done[..i + 1] + olds[i + 1..] by {
      forall j | 0 <= j < |segs| ensures Contents(segs)[j] == (done[..i + 1] + olds[i + 1..])[j] {
        if j != i {
          assert old(Contents(segs))[j] == (done[..i] + olds[i..])[j];
        }
      }
    }
  }

  /** One round of the scatter loop: segment i takes what fits of the
      bytes left, and the loop then stands at segment i + 1. */
  method ScatterOne(segs: seq<array<byte>>, data: seq<byte>, i: nat, bp: nat, bytes: nat,
                    ghost olds: seq<seq<byte>>) returns (copy: nat)
    requires forall i, j :: 0 <= i < j < |segs| ==> segs[i] != segs[j]
    requires i < |segs| == |olds| && bp + bytes == |data|
    requires Contents(segs) == Scatter(olds, data)[..i] + olds[i..]
    requires Scatter(olds, data)[i..] == Scatter(olds[i..], data[bp..])
    modifies segs[i]
    ensures copy == if |olds[i]| < bytes then |olds[i]| else bytes
    ensures Contents(segs) == Scatter(olds, data)[..i + 1] + olds[i + 1..]
    ensures Scatter(olds, data)[i + 1..] == Scatter(olds[i + 1..], data[bp + copy..])
  {
    ghost var done := Scatter(olds, data);
    Unwritten(segs, done, olds, i);
    copy := if segs[i].Length < bytes then segs[i].Length else bytes;
    ScatterStep(olds, data, i, bp, copy);
    CopyToSegment(segs, i, data[bp..bp + copy], done, olds);
  }

  /** The scatter loop: `data` copied over the segments in order. */
  method ScatterInto(segs: seq<array<byte>>, data: seq<byte>)
    requires forall i, j :: 0 <= i < j < |segs| ==> segs[i] != segs[j]
    modifies segs
    ensures Contents(segs) == Scatter(old(Contents(segs)), data)
  {
    ghost var olds := Contents(segs);
    ghost var done := Scatter(olds, data);
    var bytes := |data|;
    var bp := 0;
    var i := 0;
    assert olds[0..] == olds && data[0..] == data;
    while i < |segs|
      invariant i <= |segs| == |olds| && 0 <= bp && 0 <= bytes && bp + bytes == |data|
      invariant Contents(segs) == done[..i] + olds[i..]
      invariant done[i..] == Scatter(olds[i..], data[bp..])
    {
      var copy := ScatterOne(segs, data, i, bp, bytes, olds);
      bp, bytes := bp + copy, bytes - copy;
      if bytes == 0 {
        ScatterRest(olds, data, i + 1, bp);
        break;
      }
      i := i + 1;
    }
    if i == |segs| {
      assert done[..i] + olds[i..] == done;
    }
  }

  /** readv: one read of the segments' total length into a buffer, whose
      bytes are then scattered over the segments in order; returns the
      count read, or -1 if the read failed. `read(n)` is the outcome of
      reading up to n bytes. The total is checked against `limit`, as in
      Writev. */
  method Readv(segs: seq<array<byte>>, limit: nat, mallocOk: bool, read: nat -> Option<seq<byte>>)
    returns (rc: int, errno: Option<int>)
    requires forall i, j :: 0 <= i < j < |segs| ==> segs[i] != segs[j]
    requires forall n: nat :: read(n).Some? ==> |read(n).value| <= n
    modifies segs
    ensures var total := Total(ArrayLens(segs));
      && (total > limit ==> rc == -1 && errno == Some(EINVAL))
      && (total <= limit ==> errno == None)
      && (total > limit || !mallocOk || read(total).None? ==>
            rc == -1 && Contents(segs) == old(Contents(segs)))
      && (total <= limit && mallocOk && read(total).Some? ==>
            rc == |read(total).value| && Contents(segs) == Scatter(old(Contents(segs)), read(total).value))
  {
    var total := SumLengths(ArrayLens(segs), limit);
    if total.None? {
      return -1, Some(EINVAL);
    }
    if !mallocOk {
      return -1, None;
    }
    var got := read(total.value);
    if got.None? {
      return -1, None;
    }
    ScatterInto(segs, got.value);
    rc, errno := |got.value|, None;
  }

  /** A read that fills the segments leaves them holding the bytes read,
      in order. */
  lemma {:induction false} ReadvFullRead(segs: seq<array<byte>>, olds: seq<seq<byte>>, data: seq<byte>)
    requires |olds| == |segs| && forall i :: 0 <= i < |segs| ==> |olds[i]| == segs[i].Length
    requires |data| == Total(ArrayLens(segs))
    ensures Concat(Scatter(olds, data)) == data
  {
    assert Lens(olds) == ArrayLens(segs);
    ScatterThenGather(olds, data);
  }

  // ---------------------------------------------------------------------
  // poll on top of select

  /** The poll bits; only their being distinct bits matters here. */
  const POLLIN: bv16 := 0x0001
  const POLLPRI: bv16 := 0x0002
  const POLLOUT: bv16 := 0x0004
  const POLLHUP: bv16 := 0x0010

  /** struct pollfd */
  datatype PollFd = PollFd(fd: int, events: bv16, revents: bv16)

  predicate WantsRead(p: PollFd) {
    p.fd >= 0 && p.events & (POLLIN | POLLPRI) != 0
  }

  predicate WantsWrite(p: PollFd) {
    p.fd >= 0 && p.events & POLLOUT != 0
  }

  function ReadSet(fds: seq<PollFd>): set<int> {
    if fds == [] then {}
    else ReadSet(fds[..|fds| - 1]) + if WantsRead(fds[|fds| - 1]) then {fds[|fds| - 1].fd} else {}
  }

  function WriteSet(fds: seq<PollFd>): set<int> {
    if fds == [] then {}
    else WriteSet(fds[..|fds| - 1]) + if WantsWrite(fds[|fds| - 1]) then {fds[|fds| - 1].fd} else {}
  }

  /** Every entry with a valid descriptor is watched for exceptions. */
  function ExceptSet(fds: seq<PollFd>): set<int> {
    if fds == [] then {}
    else ExceptSet(fds[..|fds| - 1]) + if fds[|fds| - 1].fd >= 0 then {fds[|fds| - 1].fd} else {}
  }

  function MaxFd(fds: seq<PollFd>): nat {
    if fds == [] then 0
    else
      var m := MaxFd(fds[..|fds| - 1]);
      if fds[|fds| - 1].fd > m then fds[|fds| - 1].fd else m
  }

  /** The read set holds exactly the descriptors of the entries asking to
      read. */
  lemma {:induction false} ReadSetOf(fds: seq<PollFd>, fd: int)
    ensures fd in ReadSet(fds) <==> exists i :: 0 <= i < |fds| && fds[i].fd == fd && WantsRead(fds[i])
  {
    if fds != [] {
      var init := fds[..|fds| - 1];
      ReadSetOf(init, fd);
      if exists i :: 0 <= i < |fds| && fds[i].fd == fd && WantsRead(fds[i]) {
        var i :| 0 <= i < |fds| && fds[i].fd == fd && WantsRead(fds[i]);
        if i < |init| {
          assert init[i] == fds[i];
        }
      }
      if exists i :: 0 <= i < |init| && init[i].fd == fd && WantsRead(init[i]) {
        var i :| 0 <= i < |init| && init[i].fd == fd && WantsRead(init[i]);
        assert fds[i] == init[i];
      }
    }
  }

  /** The write set holds exactly the descriptors of the entries asking to
      write. */
  lemma {:induction false} WriteSetOf(fds: seq<PollFd>, fd: int)
    ensures fd in WriteSet(fds) <==> exists i :: 0 <= i < |fds| && fds[i].fd == fd && WantsWrite(fds[i])
  {
    if fds != [] {
      var init := fds[..|fds| - 1];
      WriteSetOf(init, fd);
      if exists i :: 0 <= i < |fds| && fds[i].fd == fd && WantsWrite(fds[i]) {
        var i :| 0 <= i < |fds| && fds[i].fd == fd && WantsWrite(fds[i]);
        if i < |init| {
          assert init[i] == fds[i];
        }
      }
      if exists i :: 0 <= i < |init| && init[i].fd == fd && WantsWrite(init[i]) {
        var i :| 0 <= i < |init| && init[i].fd == fd && WantsWrite(init[i]);
        assert fds[i] == init[i];
      }
    }
  }

  /** The exception set holds exactly the valid descriptors, none above
      MaxFd, so select's first argument covers them all. */
  lemma {:induction false} ExceptSetOf(fds: seq<PollFd>, fd: int)
    ensures fd in ExceptSet(fds) <==> fd >= 0 && exists i :: 0 <= i < |fds| && fds[i].fd == fd
    ensures fd in ExceptSet(fds) ==> fd < MaxFd(fds) + 1
  {
    if fds != [] {
      var init := fds[..|fds| - 1];
      ExceptSetOf(init, fd);
      if fd >= 0 && exists i :: 0 <= i < |fds| && fds[i].fd == fd {
        var i :| 0 <= i < |fds| && fds[i].fd == fd;
        if i < |init| {
          assert init[i] == fds[i];
        }
      }
      if exists i :: 0 <= i < |init| && init[i].fd == fd {
        var i :| 0 <= i < |init| && init[i].fd == fd;
        assert fds[i] == init[i];
      }
    }
  }

  /** struct timeval */
  datatype TimeVal = TimeVal(sec: int, usec: int)

  /** The select timeout for a poll timeout in milliseconds: none when
      negative. */
  function TimeoutOf(timo: int): (t: Option<TimeVal>)
    ensures t.None? <==> timo < 0
  {
    if timo >= 0 then Some(TimeVal(timo / 1000, (timo % 1000) * 1000)) else None
  }

  /** The split loses nothing: the seconds and microseconds add back up to
      the milliseconds asked for. */
  lemma {:induction false} TimeoutSplits(timo: int)
    requires timo >= 0
    ensures var t := TimeoutOf(timo).value;
      && 0 <= t.usec < 1_000_000 && t.usec % 1000 == 0
      && t.sec * 1000 + t.usec / 1000 == timo
  {
    var t := TimeoutOf(timo).value;
    assert t.usec / 1000 == timo % 1000;
  }

  /** The arguments poll passes to select; an empty read or write set is
      passed as NULL. */
  datatype SelectCall = SelectCall(nfds: int, read: Option<set<int>>, write: Option<set<int>>,
                                   except: set<int>, timeout: Option<TimeVal>)

  function SelectCallOf(fds: seq<PollFd>, timo: int): SelectCall {
    SelectCall(MaxFd(fds) + 1,
               if ReadSet(fds) == {} then None else Some(ReadSet(fds)),
               if WriteSet(fds) == {} then None else Some(WriteSet(fds)),
               ExceptSet(fds), TimeoutOf(timo))
  }

  /** What select returns and leaves in the three sets it was given. */
  datatype Ready = Ready(rc: int, read: set<int>, write: set<int>, except: set<int>)

  /** A set poll consults after select: what select left in it when it was
      passed, and empty when it was NULL. */
  function Seen(passed: Option<set<int>>, left: set<int>): set<int> {
    if passed.Some? then left else {}
  }

  /** The events poll reports for one entry. */
  function Revents(p: PollFd, readable: set<int>, writable: set<int>, failed: set<int>): bv16 {
    if p.fd < 0 then 0
    else
      (if p.events & (POLLIN | POLLPRI) != 0 && p.fd in readable then POLLIN else 0) |
      (if p.events & POLLOUT != 0 && p.fd in writable then POLLOUT else 0) |
      (if p.fd in failed then POLLHUP else 0)
  }

  /** POLLIN is reported exactly for a requested read (POLLIN or POLLPRI) on
      a readable descriptor, POLLOUT for a requested write on a writable
      one, POLLHUP for a descriptor with an exception; nothing else is, and
      an entry with a negative descriptor reports nothing. */
  lemma {:induction false} ReventsBits(p: PollFd, readable: set<int>, writable: set<int>, failed: set<int>)
    ensures var r := Revents(p, readable, writable, failed);
      && (r & POLLIN != 0 <==> WantsRead(p) && p.fd in readable)
      && (r & POLLOUT != 0 <==> WantsWrite(p) && p.fd in writable)
      && (r & POLLHUP != 0 <==> p.fd >= 0 && p.fd in failed)
      && r & !(POLLIN | POLLOUT | POLLHUP) == 0
      && (p.fd < 0 ==> r == 0)
  {
  }

  /** How many entries report events. */
  function Reported(fds: seq<PollFd>): (n: nat)
    ensures n <= |fds|
  {
    if fds == [] then 0
    else Reported(fds[..|fds| - 1]) + if fds[|fds| - 1].revents != 0 then 1 else 0
  }

  /** The first loop of poll: every revents cleared, and the select
      arguments built from the entries with a valid descriptor. */
  method BuildSets(fds: array<PollFd>, timo: int) returns (call: SelectCall)
    modifies fds
    ensures call == SelectCallOf(old(fds[..]), timo)
    ensures forall i :: 0 <= i < fds.Length ==> fds[i] == old(fds[i]).(revents := 0)
  {
    ghost var s := fds[..];
    var ifds, ofds, efds := {}, {}, {};
    var ip, op := false, false;
    var maxfd := 0;
    var i := 0;
    while i < fds.Length
      invariant i <= fds.Length
      invariant forall k :: 0 <= k < i ==> fds[k] == s[k].(revents := 0)
      invariant forall k :: i <= k < fds.Length ==> fds[k] == s[k]
      invariant ifds == ReadSet(s[..i]) && (ip <==> ifds != {})
      invariant ofds == WriteSet(s[..i]) && (op <==> ofds != {})
      invariant efds == ExceptSet(s[..i]) && maxfd == MaxFd(s[..i])
    {
      assert s[..i + 1][..i] == s[..i];
      var p := fds[i];
      fds[i] := p.(revents := 0);
      if p.fd >= 0 {
        if p.events & (POLLIN | POLLPRI) != 0 {
          ip := true;
          ifds := ifds + {p.fd};
        }
        if p.events & POLLOUT != 0 {
          op := true;
          ofds := ofds + {p.fd};
        }
        efds := efds + {p.fd};
        if p.fd > maxfd {
          maxfd := p.fd;
        }
      }
      i := i + 1;
    }
    assert s[..i] == s;
    call := SelectCall(maxfd + 1, if ip then Some(ifds) else None, if op then Some(ofds) else None,
                       efds, TimeoutOf(timo));
  }

  /** The second loop of poll: each entry with a valid descriptor gets the
      events select found for it; the count of entries reporting any is
      returned. */
  method ReportEvents(fds: array<PollFd>, readable: set<int>, writable: set<int>, failed: set<int>)
    returns (rc: int)
    requires forall i :: 0 <= i < fds.Length ==> fds[i].revents == 0
    modifies fds
    ensures forall i :: 0 <= i < fds.Length ==>
      fds[i] == old(fds[i]).(revents := Revents(old(fds[i]), readable, writable, failed))
    ensures rc == Reported(fds[..])
  {
    ghost var s := fds[..];
    rc := 0;
    var i := 0;
    while i < fds.Length
      invariant i <= fds.Length
      invariant forall k :: 0 <= k < i ==> fds[k] == s[k].(revents := Revents(s[k], readable, writable, failed))
      invariant forall k :: i <= k < fds.Length ==> fds[k] == s[k]
      invariant rc == Reported(fds[..i])
    {
      var p := fds[i];
      if p.fd >= 0 {
        var revents: bv16 := 0;
        if p.events & (POLLIN | POLLPRI) != 0 && p.fd in readable {
          revents := revents | POLLIN;
        }
        if p.events & POLLOUT != 0 && p.fd in writable {
          revents := revents | POLLOUT;
        }
        if p.fd in failed {
          revents := revents | POLLHUP;
        }
        if revents != 0 {
          fds[i] := p.(revents := revents);
          rc := rc + 1;
        }
      }
      assert fds[..i + 1][..i] == fds[..i];
      i := i + 1;
    }
    assert fds[..i] == fds[..];
  }

  /** poll: clears every revents and builds the select sets from the
      entries with a valid descriptor; passes select's result on when it is
      not positive, and otherwise fills in the events of each entry and
      returns how many report any. */
  method Poll(fds: array<PollFd>, timo: int, ready: Ready) returns (rc: int, call: SelectCall)
    modifies fds
    ensures call == SelectCallOf(old(fds[..]), timo)
    ensures ready.rc <= 0 ==>
      rc == ready.rc && forall i :: 0 <= i < fds.Length ==> fds[i] == old(fds[i]).(revents := 0)
    ensures ready.rc > 0 ==>
      && (forall i :: 0 <= i < fds.Length ==>
            fds[i] == old(fds[i]).(revents := Revents(old(fds[i]), Seen(call.read, ready.read),
                                                      Seen(call.write, ready.write), ready.except)))
      && rc == Reported(fds[..])
  {
    call := BuildSets(fds, timo);
    if ready.rc <= 0 {
      return ready.rc, call;
    }
    var readable := if call.read.Some? then ready.read else {};
    var writable := if call.write.Some? then ready.write else {};
    rc := ReportEvents(fds, readable, writable, ready.except);
  }

  // ---------------------------------------------------------------------
  // random and srandom

  const ULONG_LIMIT: nat := 0x1_0000_0000
  /** unsigned long on the 32-bit I/O processor this generator is built for. */
  type ulong = x: nat | x < ULONG_LIMIT

  /** One step of the generator: next * 1103515245 + 12345, wrapping at
      2^32. */
  function Step(next: ulong): ulong {
    (next * 1103515245 + 12345) % 0x1_0000_0000
  }

  /** The value random returns for a state: bits 16 to 30. */
  function Output(next: ulong): (r: nat)
    ensures r < 32768
  {
    (next / 65536) % 32768
  }

  /** The step taken back: 4005161829 is the multiplier's inverse modulo
      2^32. */
  function Unstep(next: ulong): ulong {
    ((next + 0x1_0000_0000 - 12345) * 4005161829) % 0x1_0000_0000
  }

  lemma {:induction false} ModOfShifted(v: int, x: int, t: int)
    requires 0 <= x < 0x1_0000_0000 && v == x + t * 0x1_0000_0000
    ensures v % 0x1_0000_0000 == x
  {
  }

  /** The multiplier is odd, so a step loses no state: distinct seeds never
      merge into one sequence. */
  lemma {:induction false} StepInvertible(x: ulong)
    ensures Unstep(Step(x)) == x
  {
    var q := (x * 1103515245 + 12345) / 0x1_0000_0000;
    var y: int := Step(x);
    assert y == x * 1103515245 + 12345 - q * 0x1_0000_0000;
    var v := (y + 0x1_0000_0000 - 12345) * 4005161829;
    var t := x * 1029054899 + (1 - q) * 4005161829;
    assert v == x + t * 0x1_0000_0000;
    ModOfShifted(v, x, t);
  }

  /** The static `next` of random and srandom. */
  class Rng {
    var next: ulong

    constructor ()
      ensures next == 1
    {
      next := 1;
    }

    /** random: advances the state and returns 15 of its bits. */
    method Random() returns (r: int)
      modifies this
      ensures next == Step(old(next)) && r == Output(next) && 0 <= r < 32768
    {
      next := (next * 1103515245 + 12345) % ULONG_LIMIT;
      return (next / 65536) % 32768;
    }

    /** srandom: restarts the sequence from `seed`. */
    method Srandom(seed: ulong)
      modifies this
      ensures next == seed
    {
      next := seed;
    }
  }
}
