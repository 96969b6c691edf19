/**
 The chunked I/O of the file system shim (DO_FS_ALLOC_R, DO_FS_ALLOC_W, do_fs_alloc_w and
 getdents_by_fsp_readdirs in examples/syscall_fsp.c) over a backend that may return short or fail at will.
 */
module Fsp {
  import opened Bytes

  /** The largest chunk, what fs_malloc is asked for at most. */
  const SIZE := 1024 * 1024 / 4

  function Min(a: int, b: int): int {
    if a <= b then a else b
  }

  /**
   An open file of the backend. `limit(k)` bounds the answer to the k-th request:
   zero or less is a failure, and a small number a short transfer.
   */
  class File {
    var data: seq<Byte>
    var pos: nat
    var requests: nat
    const limit: nat -> int

    /** fs_allocated_read */
    method Read(buf: array<Byte>) returns (ret: int)
      requires pos <= |data|
      modifies this`pos, this`requests, buf
      ensures ret == Answer(limit, old(requests), buf.Length, |data| - old(pos))
      ensures requests == old(requests) + 1
      ensures if ret > 0 then pos == old(pos) + ret && buf[..ret] == data[old(pos)..pos] else pos == old(pos)
    {
      ret := Answer(limit, requests, buf.Length, |data| - pos);
      requests := requests + 1;
      if ret > 0 {
        forall i | 0 <= i < ret {
          buf[i] := data[pos + i];
        }
        pos := pos + ret;
      }
    }

    /** fs_allocated_write, at the end of the file. */
    method Write(buf: array<Byte>) returns (ret: int)
      modifies this`data, this`requests
      ensures ret == Answer(limit, old(requests), buf.Length, buf.Length)
      ensures requests == old(requests) + 1
      ensures data == old(data) + if ret > 0 then buf[..ret] else []
    {
      ret := Answer(limit, requests, buf.Length, buf.Length);
      requests := requests + 1;
      if ret > 0 {
        data := data + buf[..ret];
      }
    }
  }

  function Answer(limit: nat -> int, k: nat, size: int, available: int): (ret: int)
    ensures ret <= size && ret <= available
  {
    Min(limit(k), Min(size, available))
  }

  // ----- how many bytes a loop transfers -----

  /** The total of the loop from its k-th request on, with `count` bytes to ask for. */
  ghost function Total(limit: nat -> int, k: nat, count: nat, available: nat): (total: nat)
    ensures total <= count && total <= available
    decreases count
  {
    if count == 0 then 0 else
      var size := Min(count, SIZE);
      var ret := Answer(limit, k, size, available);
      if ret <= 0 then 0 else ret + Total(limit, k + 1, count - size, available - ret)
  }

  /** The j-th chunk asked for. */
  function Chunk(count: nat, j: nat): int {
    Min(count - j * SIZE, SIZE)
  }

  /** The j-th request, if there is one, is granted in full. */
  ghost predicate Granted(limit: nat -> int, k: nat, count: nat, j: nat) {
    j * SIZE < count ==> limit(k + j) >= Chunk(count, j)
  }

  ghost predicate AllGranted(limit: nat -> int, k: nat, count: nat) {
    forall j: nat :: Granted(limit, k, count, j)
  }

  lemma GrantedLater(limit: nat -> int, k: nat, count: nat)
    requires count > 0
    ensures AllGranted(limit, k, count)
       <==> limit(k) >= Min(count, SIZE) && AllGranted(limit, k + 1, count - Min(count, SIZE))
  {
    var next, rest := k + 1, count - Min(count, SIZE);
    if AllGranted(limit, k, count) {
      assert Granted(limit, k, count, 0);
      forall j: nat
        ensures Granted(limit, next, rest, j)
      {
        assert Granted(limit, k, count, j + 1);
      }
    }
    if limit(k) >= Min(count, SIZE) && AllGranted(limit, next, rest) {
      forall j: nat
        ensures Granted(limit, k, count, j)
      {
        if j > 0 {
          assert Granted(limit, next, rest, j - 1);
        }
      }
    }
  }

  /** Everything asked for is transferred exactly when it is there and no request is cut short. */
  lemma {:induction false} FullIff(limit: nat -> int, k: nat, count: nat, available: nat)
    ensures Total(limit, k, count, available) == count
       <==> count <= available && AllGranted(limit, k, count)
    decreases count
  {
    if count > 0 {
      var size := Min(count, SIZE);
      var ret := Answer(limit, k, size, available);
      GrantedLater(limit, k, count);
      if ret > 0 {
        FullIff(limit, k + 1, count - size, available - ret);
      }
    }
  }

  /** What the first n requests ask for, each cut to its limit. */
  ghost function Sum(limit: nat -> int, k: nat, count: int, n: nat): int {
    if n == 0 then 0
    else Sum(limit, k, count, n - 1) + Min(limit(k + n - 1), Min(count - (n - 1) * 0x40000, 0x40000))
  }

  lemma {:induction false} SumFirst(limit: nat -> int, k: nat, count: int, n: nat)
    requires n > 0
    ensures Sum(limit, k, count, n) == Min(limit(k), Min(count, SIZE)) + Sum(limit, k + 1, count - SIZE, n - 1)
  {
    hide Min;
    if n > 1 {
      SumFirst(limit, k, count, n - 1);
      assert k + n - 1 == k + 1 + (n - 1) - 1 && count - (n - 1) * SIZE == count - SIZE - (n - 2) * SIZE;
    }
  }

  /** The first n requests are all made and none of them fails. */
  ghost predicate Succeed(limit: nat -> int, k: nat, count: int, n: nat) {
    forall j :: 0 <= j < n ==> j * 0x40000 < count && limit(k + j) > 0
  }

  lemma SucceedLater(limit: nat -> int, k: nat, count: int, n: nat)
    requires n > 0 && Succeed(limit, k, count, n)
    ensures count > 0 && limit(k) > 0 && Succeed(limit, k + 1, count - SIZE, n - 1) && (n > 1 ==> count > SIZE)
  {
    var first := 0;
    assert first * 0x40000 < count && limit(k + first) > 0;
    forall j | 0 <= j < n - 1
      ensures j * SIZE < count - SIZE && limit(k + 1 + j) > 0
    {
      assert (j + 1) * SIZE < count && limit(k + (j + 1)) > 0;
    }
  }

  lemma {:induction false} SumGrows(limit: nat -> int, k: nat, count: int, n: nat)
    requires Succeed(limit, k, count, n)
    ensures Sum(limit, k, count, n) >= 0
  {
    if n > 0 {
      SumGrows(limit, k, count, n - 1);
    }
  }

  /**
   The total, told by requests: each asks for the next 256 KB of the count, whatever the earlier ones have
   brought; the loop ends with the count, or at the first failure, or with the data.
   */
  lemma {:induction false} TotalIsSum(limit: nat -> int, k: nat, count: nat, available: nat, n: nat)
    requires Succeed(limit, k, count, n) && (n * 0x40000 >= count || limit(k + n) <= 0)
    ensures Total(limit, k, count, available) == Min(available, Sum(limit, k, count, n))
    decreases n
  {
    hide Total, Sum, Succeed, Min, Answer;
    if n == 0 {
      NoRequest(limit, k, count, available);
    } else {
      SumFirst(limit, k, count, n);
      SucceedLater(limit, k, count, n);
      TotalStep(limit, k, count, available);
      SumGrows(limit, k + 1, count - SIZE, n - 1);
      var ret, rest := Answer(limit, k, Min(count, SIZE), available), Sum(limit, k + 1, count - SIZE, n - 1);
      CutTwice(limit, k, count, available, rest);
      if n > 1 && ret > 0 {
        TotalIsSum(limit, k + 1, count - SIZE, available - ret, n - 1);
      } else if ret > 0 {
        NothingFollows(limit, k, count, available - ret);
      }
    }
  }

  lemma NoRequest(limit: nat -> int, k: nat, count: nat, available: nat)
    requires 0 >= count || limit(k) <= 0
    ensures Total(limit, k, count, available) == Min(available, Sum(limit, k, count, 0)) == 0
  {
  }

  /** Cutting every answer to what is available cuts the sum to it. */
  lemma CutTwice(limit: nat -> int, k: nat, count: nat, available: nat, rest: nat)
    requires count > 0 && limit(k) > 0
    ensures var ret, all := Answer(limit, k, Min(count, SIZE), available), Min(limit(k), Min(count, SIZE)) + rest;
      && (if ret > 0 then ret + Min(available - ret, rest) == Min(available, all) else Min(available, all) == 0)
      && (ret > 0 ==> ret <= available)
      && (count > SIZE ==> Min(count, SIZE) == SIZE)
      && (ret > 0 && rest == 0 ==> Min(available, all) == ret)
  {
  }

  /** After the only request that is made and succeeds, nothing is transferred. */
  lemma NothingFollows(limit: nat -> int, k: nat, count: nat, available: nat)
    requires SIZE >= count || limit(k + 1) <= 0
    ensures Total(limit, k + 1, count - Min(count, SIZE), available) == 0 && Sum(limit, k + 1, count - SIZE, 0) == 0
  {
  }

  lemma TotalStep(limit: nat -> int, k: nat, count: nat, available: nat)
    requires count > 0
    ensures var size := Min(count, SIZE);
      var ret := Answer(limit, k, size, available);
      Total(limit, k, count, available)
        == if ret <= 0 then 0 else ret + Total(limit, k + 1, count - size, available - ret)
  {
  }

  // ----- the loops -----

  /** `before` with `bytes` written over it. */
  ghost function Spliced(before: seq<Byte>, at: nat, bytes: seq<Byte>): seq<Byte>
    requires at + |bytes| <= |before|
  {
    before[..at] + bytes + before[at + |bytes|..]
  }

  lemma SplicedNext(before: seq<Byte>, at: nat, x: seq<Byte>, y: seq<Byte>)
    requires at + |x| + |y| <= |before|
    ensures |Spliced(before, at, x)| == |before|
    ensures Spliced(Spliced(before, at, x), at + |x|, y) == Spliced(before, at, x + y)
  {
    var s := Spliced(before, at, x);
    assert s[..at + |x|] == before[..at] + x;
    assert s[at + |x| + |y|..] == before[at + |x| + |y|..];
    assert before[..at] + x + y == before[..at] + (x + y);
  }

  method Memcpy(dst: array<Byte>, at: nat, src: array<Byte>, n: nat)
    requires dst != src && n <= src.Length && at + n <= dst.Length
    modifies dst
    ensures dst[..] == Spliced(old(dst[..]), at, src[..n])
  {
    forall i | 0 <= i < n {
      dst[at + i] := src[i];
    }
  }

  /** DO_FS_ALLOC_R: the bytes read are the next ones of the file, in order, and nothing else is touched. */
  method ReadChunks(file: File, dst: array<Byte>, at: nat, request: nat) returns (total: nat)
    requires file.pos <= |file.data| && at + request <= dst.Length
    modifies file`pos, file`requests, dst
    ensures total == Total(file.limit, old(file.requests), request, |file.data| - old(file.pos))
    ensures file.pos == old(file.pos) + total && file.pos <= |file.data|
    ensures dst[..] == Spliced(old(dst[..]), at, file.data[old(file.pos)..file.pos])
  {
    hide Total, Answer, Spliced;
    var count: nat := request;
    total := 0;
    ghost var before, first := dst[..], file.pos;
    SplicedNothing(before, at);
    assert file.data[first..first] == [];
    while count > 0
      invariant total + count <= request
      invariant file.pos == first + total && file.pos <= |file.data|
      invariant total + Total(file.limit, file.requests, count, |file.data| - file.pos)
             == Total(file.limit, old(file.requests), request, |file.data| - first)
      invariant dst[..] == Spliced(before, at, file.data[first..file.pos])
    {
      TotalStep(file.limit, file.requests, count, |file.data| - file.pos);
      var size := Min(count, SIZE);
      var curBuf := new Byte[size];
      ghost var done := file.data[first..file.pos];
      var ret := file.Read(curBuf);
      if ret <= 0 {
        return;
      }
      SplicedNext(before, at, done, curBuf[..ret]);
      Memcpy(dst, at + total, curBuf, ret);
      assert done + curBuf[..ret] == file.data[first..file.pos];
      total := total + ret;
      count := count - size;
    }
  }

  lemma SplicedNothing(before: seq<Byte>, at: nat)
    requires at <= |before|
    ensures Spliced(before, at, []) == before
  {
  }

  /**
   DO_FS_ALLOC_W and do_fs_alloc_w: the file grows by exactly the first `total` bytes of the caller's buffer.
   */
  method WriteChunks(file: File, src: array<Byte>, at: nat, request: nat) returns (total: nat)
    requires at + request <= src.Length
    modifies file`data, file`requests
    ensures total == Total(file.limit, old(file.requests), request, request)
    ensures file.data == old(file.data) + src[at..at + total]
  {
    hide Total;
    var count: nat := request;
    total := 0;
    ghost var before, s := file.data, src[..];
    assert before + s[at..at] == before;
    while count > 0
      invariant total + count <= request
      invariant total + Total(file.limit, file.requests, count, request - total)
             == Total(file.limit, old(file.requests), request, request)
      invariant src[..] == s && file.data == before + s[at..at + total]
    {
      TotalStep(file.limit, file.requests, count, request - total);
      var size := Min(count, SIZE);
      var curBuf := CopyOf(src, at + total, size);
      var ret := file.Write(curBuf);
      if ret <= 0 {
        return;
      }
      AppendedNext(before, s, at, total, curBuf[..], ret);
      total := total + ret;
      count := count - size;
    }
  }

  lemma AppendedNext(before: seq<Byte>, s: seq<Byte>, at: nat, total: nat, chunk: seq<Byte>, ret: nat)
    requires ret <= |chunk| && at + total + |chunk| <= |s| && chunk == s[at + total..at + total + |chunk|]
    ensures before + s[at..at + total] + chunk[..ret] == before + s[at..at + total + ret]
  {
    assert s[at..at + total] + chunk[..ret] == s[at..at + total + ret];
    assert before + s[at..at + total] + chunk[..ret] == before + (s[at..at + total] + chunk[..ret]);
  }

  /** fs_malloc and the copy into it. */
  method CopyOf(src: array<Byte>, at: nat, n: nat) returns (buf: array<Byte>)
    requires at + n <= src.Length
    ensures fresh(buf) && buf[..] == src[at..at + n]
  {
    buf := new Byte[n];
    forall i | 0 <= i < n {
      buf[i] := src[at + i];
    }
  }
}
