/** Searching a spooled file through a fixed window, as the code does it. */
module Spool {

  import opened Bytes
  import opened Sequences

  /** `marker` occurs at `i`. */
  ghost predicate At(marker: seq<byte>, text: seq<byte>, i: int) {
    0 <= i && i + |marker| <= |text| && text[i..i + |marker|] == marker
  }

  /** `marker` occurs in `text`. */
  ghost predicate Occurs(marker: seq<byte>, text: seq<byte>) {
    exists i :: At(marker, text, i)
  }

  predicate Contains(text: seq<byte>, marker: seq<byte>) {
    marker <= text || (text != [] && Contains(text[1..], marker))
  }

  lemma AtInRest(marker: seq<byte>, text: seq<byte>, rest: seq<byte>, i: int)
    requires 0 < i && text != [] && rest == text[1..]
    ensures At(marker, text, i) <==> At(marker, rest, i - 1)
  {
    if i + |marker| <= |text| {
      var a, b := text[i..i + |marker|], rest[i - 1..i - 1 + |marker|];
      assert forall k :: 0 <= k < |marker| ==> a[k] == text[i + k] == rest[i - 1 + k] == b[k];
      assert a == b;
    }
  }

  lemma {:induction false} ContainsIsOccurs(text: seq<byte>, marker: seq<byte>)
    ensures Contains(text, marker) <==> Occurs(marker, text)
  {
    assert marker <= text <==> At(marker, text, 0);
    if text != [] {
      ContainsIsOccurs(text[1..], marker);
      forall i | 0 < i ensures At(marker, text, i) <==> At(marker, text[1..], i - 1) {
        AtInRest(marker, text, text[1..], i);
      }
      if Occurs(marker, text[1..]) {
        var i :| At(marker, text[1..], i);
        assert At(marker, text, i + 1);
      }
    }
  }

  function Zeros(n: nat): (z: seq<byte>)
    ensures |z| == n && forall i :: 0 <= i < n ==> z[i] == 0
  {
    seq(n, _ => 0)
  }

  function Min(a: int, b: int): int {
    if a < b then a else b
  }

  // ----- what each window holds

  /** Where the window behind `j` full ones begins to read. */
  function Start(chunk: nat, j: nat): nat {
    if j == 0 then 0 else Start(chunk, j - 1) + chunk
  }

  lemma {:induction false} LaterStart(chunk: nat, j: nat, k: nat)
    requires j <= k
    ensures Start(chunk, j) <= Start(chunk, k)
  {
    if j < k { LaterStart(chunk, j, k - 1); }
  }

  /** The bytes carried into the window behind `j` full ones: they are copied from where the new length
      of the carry puts them, so as long as the carry grows its end is the buffer's unused bytes. */
  function Carry(file: seq<byte>, marker: seq<byte>, chunk: nat, j: nat): (carry: seq<byte>)
    requires marker != [] && Start(chunk, j) <= |file|
    ensures |carry| == Min(|marker| - 1, Start(chunk, j))
    decreases j, 0
  {
    if j == 0 then []
    else
      assert Start(chunk, j - 1) + chunk == Start(chunk, j);
      (Window(file, marker, chunk, j - 1) + Zeros(|marker| - 1))[chunk..chunk + Min(|marker| - 1, Start(chunk, j))]
  }

  /** The window behind `j` full ones. */
  function Window(file: seq<byte>, marker: seq<byte>, chunk: nat, j: nat): (window: seq<byte>)
    requires marker != [] && Start(chunk, j) <= |file|
    ensures |window| == Min(|marker| - 1, Start(chunk, j)) + Min(chunk, |file| - Start(chunk, j))
    decreases j, 1
  {
    Carry(file, marker, chunk, j) + file[Start(chunk, j)..Start(chunk, j) + Min(chunk, |file| - Start(chunk, j))]
  }

  /** Some window holds the marker. */
  ghost predicate Found(file: seq<byte>, marker: seq<byte>, chunk: nat) {
    marker == [] || exists j: nat :: Start(chunk, j) <= |file| && Occurs(marker, Window(file, marker, chunk, j))
  }

  // ----- the search

  /** Reads up to `chunk` bytes of the file from `offset` into the buffer from `carried` on. */
  method ReadAt(buffer: array<byte>, carried: nat, chunk: nat, file: seq<byte>, offset: nat) returns (n: nat)
    requires carried + chunk <= buffer.Length && offset <= |file|
    modifies buffer
    ensures n == Min(chunk, |file| - offset)
    ensures buffer[..carried + n] == old(buffer[..carried]) + file[offset..offset + n]
    ensures buffer[carried + n..] == old(buffer[carried + n..])
  {
    n := Min(chunk, |file| - offset);
    forall i | 0 <= i < n {
      buffer[carried + i] := file[offset + i];
    }
  }

  /** Moves `carried` bytes from position `from` to the front. */
  method CopyToFront(buffer: array<byte>, from: nat, carried: nat)
    requires from + carried <= buffer.Length
    modifies buffer
    ensures buffer[..carried] == old(buffer[from..from + carried])
    ensures buffer[carried..] == old(buffer[carried..])
  {
    forall i | 0 <= i < carried {
      buffer[i] := buffer[from + i];
    }
  }

  /** None of the first `j` windows holds the marker. */
  ghost predicate NoneBefore(file: seq<byte>, marker: seq<byte>, chunk: nat, j: nat)
    requires marker != []
  {
    forall k: nat :: k < j && Start(chunk, k) <= |file| ==> !Occurs(marker, Window(file, marker, chunk, k))
  }

  /** The buffer before the read behind `j` full windows. */
  ghost predicate Waiting(file: seq<byte>, marker: seq<byte>, chunk: nat, j: nat, carried: nat, buffer: seq<byte>)
    requires marker != []
  {
    && Start(chunk, j) <= |file| && |buffer| == chunk + |marker| - 1 && carried == Min(|marker| - 1, Start(chunk, j))
    && buffer[..carried] == Carry(file, marker, chunk, j)
    && buffer[carried + chunk..] == Zeros(|marker| - 1 - carried)
  }

  lemma ReadFull(before: seq<byte>, after: seq<byte>, carried: nat, chunk: nat, front: seq<byte>)
    requires carried + chunk <= |after| == |before| && after[..carried + chunk] == front
    requires after[carried + chunk..] == before[carried + chunk..]
    ensures after == front + before[carried + chunk..]
  {
    Halves(after, carried + chunk);
  }

  lemma WindowIs(file: seq<byte>, marker: seq<byte>, chunk: nat, j: nat, n: nat, carry: seq<byte>, window: seq<byte>)
    requires marker != [] && Start(chunk, j) <= |file| && n == Min(chunk, |file| - Start(chunk, j))
    requires carry == Carry(file, marker, chunk, j) && window == carry + file[Start(chunk, j)..Start(chunk, j) + n]
    ensures window == Window(file, marker, chunk, j)
  {
  }

  lemma WindowRead(file: seq<byte>, marker: seq<byte>, chunk: nat, j: nat, carried: nat, before: seq<byte>, n: nat,
                   after: seq<byte>)
    requires marker != [] && Waiting(file, marker, chunk, j, carried, before) && n == Min(chunk, |file| - Start(chunk, j))
    requires |after| == |before|
    requires after[..carried + n] == before[..carried] + file[Start(chunk, j)..Start(chunk, j) + n]
    requires after[carried + n..] == before[carried + n..]
    ensures after[..carried + n] == Window(file, marker, chunk, j)
    ensures n == chunk ==> after == Window(file, marker, chunk, j) + Zeros(|marker| - 1 - carried)
  {
    WindowIs(file, marker, chunk, j, n, before[..carried], after[..carried + n]);
    if n == chunk { ReadFull(before, after, carried, chunk, after[..carried + n]); }
  }

  lemma CarryKept(file: seq<byte>, marker: seq<byte>, chunk: nat, j: nat, carried: nat, full: seq<byte>, next: nat,
                  after: seq<byte>)
    requires marker != [] && Start(chunk, j + 1) <= |file| && carried == Min(|marker| - 1, Start(chunk, j))
    requires full == Window(file, marker, chunk, j) + Zeros(|marker| - 1 - carried)
    requires next == Min(|marker| - 1, carried + chunk) && |after| == |full|
    requires after[..next] == full[chunk..chunk + next] && after[next..] == full[next..]
    ensures next == Min(|marker| - 1, Start(chunk, j + 1))
    ensures after[..next] == Carry(file, marker, chunk, j + 1)
    ensures after[next + chunk..] == Zeros(|marker| - 1 - next)
  {
    assert Start(chunk, j) + chunk == Start(chunk, j + 1);
    var window := Window(file, marker, chunk, j);
    var longer := window + Zeros(|marker| - 1);
    assert |window| == carried + chunk;
    assert full[..chunk + next] == longer[..chunk + next];
    assert full[chunk..chunk + next] == longer[chunk..chunk + next];
    assert after[next + chunk..] == after[next..][chunk..] == full[next..][chunk..] == full[next + chunk..];
    forall i | next + chunk <= i < |full| ensures full[i] == 0 {
    }
  }

  /** What the search of one window decides. */
  lemma Decide(file: seq<byte>, marker: seq<byte>, chunk: nat, j: nat, carried: nat, before: seq<byte>, n: nat, after: seq<byte>)
    requires marker != [] && Waiting(file, marker, chunk, j, carried, before) && NoneBefore(file, marker, chunk, j)
    requires n == Min(chunk, |file| - Start(chunk, j)) && |after| == |before|
    requires after[..carried + n] == before[..carried] + file[Start(chunk, j)..Start(chunk, j) + n]
    requires after[carried + n..] == before[carried + n..]
    ensures Contains(after[..carried + n], marker) ==> Found(file, marker, chunk)
    ensures !Contains(after[..carried + n], marker) ==> NoneBefore(file, marker, chunk, j + 1)
    ensures n == chunk ==> after == Window(file, marker, chunk, j) + Zeros(|marker| - 1 - carried)
  {
    WindowRead(file, marker, chunk, j, carried, before, n, after);
    ContainsIsOccurs(after[..carried + n], marker);
  }

  /** One read and search. */
  method SearchWindow(buffer: array<byte>, file: seq<byte>, marker: seq<byte>, chunk: nat, offset: nat, carried: nat,
                      ghost j: nat) returns (hit: bool, n: nat)
    requires marker != [] && offset == Start(chunk, j)
    requires Waiting(file, marker, chunk, j, carried, buffer[..]) && NoneBefore(file, marker, chunk, j)
    modifies buffer
    ensures n == Min(chunk, |file| - offset)
    ensures hit ==> Found(file, marker, chunk)
    ensures !hit ==> NoneBefore(file, marker, chunk, j + 1)
    ensures n == chunk ==> buffer[..] == Window(file, marker, chunk, j) + Zeros(|marker| - 1 - carried)
  {
    ghost var before := buffer[..];
    n := ReadAt(buffer, carried, chunk, file, offset);
    Decide(file, marker, chunk, j, carried, before, n, buffer[..]);
    assert buffer[..][..carried + n] == buffer[..carried + n];
    hit := Contains(buffer[..carried + n], marker);
  }

  /** Moves what a full window hands on to the front of the buffer. */
  method KeepCarry(buffer: array<byte>, ghost file: seq<byte>, marker: seq<byte>, chunk: nat, carried: nat, ghost j: nat)
    returns (next: nat)
    requires marker != [] && chunk > 0 && Start(chunk, j + 1) <= |file| && carried == Min(|marker| - 1, Start(chunk, j))
    requires buffer[..] == Window(file, marker, chunk, j) + Zeros(|marker| - 1 - carried)
    modifies buffer
    ensures next <= |marker| - 1 && Waiting(file, marker, chunk, j + 1, next, buffer[..])
  {
    ghost var full := buffer[..];
    assert |full| == chunk + |marker| - 1;
    next := Min(|marker| - 1, carried + chunk);
    CopyToFront(buffer, chunk, next);
    ghost var after := buffer[..];
    assert after[..next] == full[chunk..chunk + next] && after[next..] == full[next..];
    NextWindow(file, marker, chunk, j, carried, full, next, after);
  }

  /** The window search, with the carry as the code computes it. */
  method SearchSpool(file: seq<byte>, marker: seq<byte>, chunk: nat) returns (found: bool)
    requires chunk > 0
    ensures found <==> Found(file, marker, chunk)
  {
    if marker == [] {
      return true;
    }
    var buffer := new byte[chunk + |marker| - 1](_ => 0);
    var offset, carried := 0, 0;
    ghost var j: nat := 0;
    while true
      invariant offset == Start(chunk, j) && offset <= |file| && 0 <= carried <= |marker| - 1
      invariant Waiting(file, marker, chunk, j, carried, buffer[..]) && NoneBefore(file, marker, chunk, j)
      decreases |file| - offset
    {
      var hit, n := SearchWindow(buffer, file, marker, chunk, offset, carried, j);
      if hit {
        return true;
      }
      offset := offset + n;
      if n < chunk {
        LastWindow(file, marker, chunk, j);
        return false;
      }
      carried := KeepCarry(buffer, file, marker, chunk, carried, j);
      j := j + 1;
    }
  }

  lemma LastWindow(file: seq<byte>, marker: seq<byte>, chunk: nat, j: nat)
    requires marker != [] && chunk > 0 && Start(chunk, j) <= |file| < Start(chunk, j + 1)
    requires NoneBefore(file, marker, chunk, j + 1)
    ensures !Found(file, marker, chunk)
  {
    forall k: nat | Start(chunk, k) <= |file| ensures k <= j {
      if k > j { LaterStart(chunk, j + 1, k); }
    }
  }

  lemma NextWindow(file: seq<byte>, marker: seq<byte>, chunk: nat, j: nat, carried: nat, full: seq<byte>, next: nat,
                   after: seq<byte>)
    requires marker != [] && chunk > 0 && Start(chunk, j + 1) <= |file| && carried == Min(|marker| - 1, Start(chunk, j))
    requires full == Window(file, marker, chunk, j) + Zeros(|marker| - 1 - carried)
    requires next == Min(|marker| - 1, carried + chunk) && |after| == |full|
    requires after[..next] == full[chunk..chunk + next] && after[next..] == full[next..]
    ensures Waiting(file, marker, chunk, j + 1, next, after)
  {
    CarryKept(file, marker, chunk, j, carried, full, next, after);
  }

  // ----- where a marker without a zero byte is found

  /** How many bytes at the end of the carry are the file's own. */
  function Live(marker: seq<byte>, chunk: nat, j: nat): (t: nat)
    requires marker != []
    ensures t <= Min(|marker| - 1, Start(chunk, j))
  {
    if j == 0 || Min(|marker| - 1, Start(chunk, j - 1)) < Min(|marker| - 1, Start(chunk, j)) then 0
    else
      assert Start(chunk, j - 1) + chunk == Start(chunk, j);
      Min(|marker| - 1, Live(marker, chunk, j - 1) + chunk)
  }

  lemma CarryEndsInZero(file: seq<byte>, marker: seq<byte>, chunk: nat, j: nat)
    requires marker != [] && j > 0 && Start(chunk, j) <= |file|
    requires Min(|marker| - 1, Start(chunk, j - 1)) < Min(|marker| - 1, Start(chunk, j))
    ensures var carry := Carry(file, marker, chunk, j); carry != [] && carry[|carry| - 1] == 0
  {
    var window, zeros := Window(file, marker, chunk, j - 1), Zeros(|marker| - 1);
    var n, all := Min(|marker| - 1, Start(chunk, j)), window + zeros;
    assert all[chunk..chunk + n][n - 1] == all[chunk + n - 1] == zeros[chunk + n - 1 - |window|];
  }

  lemma CarryIsTail(file: seq<byte>, marker: seq<byte>, chunk: nat, j: nat)
    requires marker != [] && j > 0 && Start(chunk, j) <= |file|
    requires Min(|marker| - 1, Start(chunk, j - 1)) == Min(|marker| - 1, Start(chunk, j))
    ensures var at := Start(chunk, j - 1);
      Carry(file, marker, chunk, j) == (Carry(file, marker, chunk, j - 1) + file[at..at + chunk])[chunk..]
  {
    var window, zeros := Window(file, marker, chunk, j - 1), Zeros(|marker| - 1);
    var n := Min(|marker| - 1, Start(chunk, j));
    assert (window + zeros)[chunk..chunk + n] == window[chunk..];
  }

  /** The last `t` bytes of the carry are the file's own up to `end`; before them stands a zero. */
  ghost predicate EndsLive(carry: seq<byte>, t: nat, file: seq<byte>, end: nat) {
    && t <= |carry| && t <= end <= |file|
    && (forall i :: |carry| - t <= i < |carry| ==> carry[i] == file[end - |carry| + i])
    && (t < |carry| ==> carry[|carry| - t - 1] == 0)
  }

  lemma CarryMoves(was: seq<byte>, t: nat, file: seq<byte>, at: nat, chunk: nat, carry: seq<byte>)
    requires EndsLive(was, t, file, at) && at + chunk <= |file| && |was| == |carry|
    requires carry == (was + file[at..at + chunk])[chunk..]
    ensures EndsLive(carry, Min(|carry|, t + chunk), file, at + chunk)
  {
    var u := Min(|carry|, t + chunk);
    forall i | |carry| - u <= i < |carry| ensures carry[i] == file[at + chunk - |carry| + i] {
      assert chunk + i < |was| ==> carry[i] == was[chunk + i];
      assert chunk + i >= |was| ==> carry[i] == file[at + chunk + i - |was|];
    }
    assert u < |carry| ==> carry[|carry| - u - 1] == was[chunk + |carry| - u - 1];
  }

  lemma CarryStaysLive(file: seq<byte>, marker: seq<byte>, chunk: nat, j: nat, was: seq<byte>, t: nat)
    requires marker != [] && j > 0 && Start(chunk, j) <= |file|
    requires Min(|marker| - 1, Start(chunk, j - 1)) == Min(|marker| - 1, Start(chunk, j))
    requires was == Carry(file, marker, chunk, j - 1) && EndsLive(was, t, file, Start(chunk, j - 1))
    ensures EndsLive(Carry(file, marker, chunk, j), Min(|marker| - 1, t + chunk), file, Start(chunk, j))
  {
    var at, carry := Start(chunk, j - 1), Carry(file, marker, chunk, j);
    CarryIsTail(file, marker, chunk, j);
    CarryMoves(was, t, file, at, chunk, carry);
    LiveLength(|marker| - 1, at, chunk, t);
  }

  lemma LiveLength(m: nat, at: nat, chunk: nat, t: nat)
    requires Min(m, at) == Min(m, at + chunk) && t <= Min(m, at)
    ensures Min(Min(m, at + chunk), t + chunk) == Min(m, t + chunk)
  {
  }

  lemma NothingLive(carry: seq<byte>, file: seq<byte>, end: nat)
    requires (carry != [] ==> carry[|carry| - 1] == 0) && end <= |file|
    ensures EndsLive(carry, 0, file, end)
  {
  }

  lemma {:induction false} CarryShape(file: seq<byte>, marker: seq<byte>, chunk: nat, j: nat)
    requires marker != [] && Start(chunk, j) <= |file|
    ensures EndsLive(Carry(file, marker, chunk, j), Live(marker, chunk, j), file, Start(chunk, j))
  {
    var carry := Carry(file, marker, chunk, j);
    if j == 0 {
      NothingLive(carry, file, Start(chunk, j));
    } else if Min(|marker| - 1, Start(chunk, j - 1)) < Min(|marker| - 1, Start(chunk, j)) {
      CarryEndsInZero(file, marker, chunk, j);
      NothingLive(carry, file, Start(chunk, j));
    } else {
      CarryShape(file, marker, chunk, j - 1);
      CarryStaysLive(file, marker, chunk, j, Carry(file, marker, chunk, j - 1), Live(marker, chunk, j - 1));
    }
  }

  /** A place behind a full window by which the carry has its full length. */
  ghost predicate BehindFilled(marker: seq<byte>, chunk: nat, i: int) {
    exists j: nat :: j >= 1 && |marker| - 1 <= Start(chunk, j) <= i
  }

  lemma {:induction false} LiveIsBehindFilled(marker: seq<byte>, chunk: nat, j: nat)
    requires marker != [] && Live(marker, chunk, j) > 0
    ensures BehindFilled(marker, chunk, Start(chunk, j) - Live(marker, chunk, j))
  {
    assert Start(chunk, j - 1) + chunk == Start(chunk, j);
    var t, was := Live(marker, chunk, j), Live(marker, chunk, j - 1);
    if was > 0 {
      LiveIsBehindFilled(marker, chunk, j - 1);
      var k: nat :| k >= 1 && |marker| - 1 <= Start(chunk, k) <= Start(chunk, j - 1) - was;
      assert Start(chunk, k) <= Start(chunk, j) - t;
    } else {
      assert j - 1 >= 1 && |marker| - 1 <= Start(chunk, j - 1) <= Start(chunk, j) - t;
    }
  }

  lemma {:induction false} LiveGrows(marker: seq<byte>, chunk: nat, filled: nat, j: nat)
    requires marker != [] && filled >= 1 && |marker| - 1 <= Start(chunk, filled) && filled <= j
    ensures Live(marker, chunk, j) >= Min(|marker| - 1, Start(chunk, j) - Start(chunk, filled))
  {
    if j > filled {
      LiveGrows(marker, chunk, filled, j - 1);
      LaterStart(chunk, filled, j - 1);
      assert Start(chunk, j - 1) + chunk == Start(chunk, j);
    }
  }

  lemma CarrySplits(carry: seq<byte>, t: nat, file: seq<byte>, at: nat, to: nat, foreign: seq<byte>)
    requires EndsLive(carry, t, file, at) && at <= to <= |file| && foreign == carry[..|carry| - t]
    ensures carry + file[at..to] == foreign + file[at - t..to]
    ensures foreign == [] || foreign[|foreign| - 1] == 0
  {
    var live := file[at - t..at];
    forall i | 0 <= i < t ensures carry[|carry| - t + i] == live[i] {
    }
    assert carry == foreign + live;
    assert live + file[at..to] == file[at - t..to];
  }

  /** A window is foreign bytes, the last of them a zero, and then a stretch of the file. */
  lemma WindowShape(file: seq<byte>, marker: seq<byte>, chunk: nat, j: nat) returns (foreign: seq<byte>, from: nat, to: nat)
    requires marker != [] && Start(chunk, j) <= |file|
    ensures from == Start(chunk, j) - Live(marker, chunk, j) && to == Start(chunk, j) + Min(chunk, |file| - Start(chunk, j))
    ensures from <= to <= |file| && Window(file, marker, chunk, j) == foreign + file[from..to]
    ensures |foreign| == Min(|marker| - 1, Start(chunk, j)) - Live(marker, chunk, j)
    ensures foreign == [] || foreign[|foreign| - 1] == 0
  {
    var carry, t, at := Carry(file, marker, chunk, j), Live(marker, chunk, j), Start(chunk, j);
    CarryShape(file, marker, chunk, j);
    foreign, from, to := carry[..|carry| - t], at - t, at + Min(chunk, |file| - at);
    CarrySplits(carry, t, file, at, to, foreign);
  }

  lemma NoZeroInside(marker: seq<byte>, window: seq<byte>, s: int)
    requires 0 !in marker && At(marker, window, s)
    ensures forall k :: s <= k < s + |marker| ==> window[k] != 0
  {
    forall k | s <= k < s + |marker| ensures window[k] != 0 {
      assert window[k] == window[s..s + |marker|][k - s] == marker[k - s];
    }
  }

  /** A marker without a zero byte that reaches into the stretch lies in it. */
  lemma AtBehindForeign(marker: seq<byte>, foreign: seq<byte>, stretch: seq<byte>, s: int)
    requires 0 !in marker && At(marker, foreign + stretch, s) && s + |marker| > |foreign|
    requires foreign == [] || foreign[|foreign| - 1] == 0
    ensures s >= |foreign| && At(marker, stretch, s - |foreign|)
  {
    var window := foreign + stretch;
    NoZeroInside(marker, window, s);
    assert foreign != [] ==> window[|foreign| - 1] == 0;
    assert s >= |foreign|;
    var a, b := window[s..s + |marker|], stretch[s - |foreign|..s - |foreign| + |marker|];
    forall k | 0 <= k < |marker| ensures a[k] == b[k] {
      assert a[k] == window[s + k] == stretch[s + k - |foreign|];
    }
  }

  lemma AtInWhole(marker: seq<byte>, file: seq<byte>, from: nat, to: nat, i: int)
    requires from <= to <= |file|
    ensures At(marker, file[from..to], i) <==> 0 <= i && from + i + |marker| <= to && At(marker, file, from + i)
  {
    if 0 <= i && from + i + |marker| <= to {
      var part := file[from..to];
      var a, b := part[i..i + |marker|], file[from + i..from + i + |marker|];
      assert forall k :: 0 <= k < |marker| ==> a[k] == part[i + k] == b[k];
      assert a == b;
    }
  }

  lemma AtInWindow(marker: seq<byte>, foreign: seq<byte>, stretch: seq<byte>, i: nat)
    requires At(marker, stretch, i)
    ensures At(marker, foreign + stretch, |foreign| + i)
  {
    var window := foreign + stretch;
    assert window[|foreign| + i..|foreign| + i + |marker|] == stretch[i..i + |marker|];
  }

  /** What a window finds is in the file, within the first window or behind a filled carry. */
  lemma WindowIsSound(file: seq<byte>, marker: seq<byte>, chunk: nat, j: nat, s: int)
    requires marker != [] && 0 !in marker && Start(chunk, j) <= |file| && At(marker, Window(file, marker, chunk, j), s)
    ensures exists i :: At(marker, file, i) && Findable(marker, chunk, i)
  {
    var foreign, from, to := WindowShape(file, marker, chunk, j);
    FoundInStretch(file, marker, foreign, from, to, s);
    var i := from + s - |foreign|;
    if j > 0 {
      FoundBehindFilled(marker, chunk, j, i, to);
    } else {
      assert i + |marker| <= chunk;
    }
  }

  lemma FoundInStretch(file: seq<byte>, marker: seq<byte>, foreign: seq<byte>, from: nat, to: nat, s: int)
    requires marker != [] && 0 !in marker && from <= to <= |file| && At(marker, foreign + file[from..to], s)
    requires |foreign| < |marker| && (foreign == [] || foreign[|foreign| - 1] == 0)
    ensures s >= |foreign| && At(marker, file, from + s - |foreign|) && from + s - |foreign| + |marker| <= to
  {
    AtBehindForeign(marker, foreign, file[from..to], s);
    AtInWhole(marker, file, from, to, s - |foreign|);
  }

  lemma FoundBehindFilled(marker: seq<byte>, chunk: nat, j: nat, i: nat, to: nat)
    requires marker != [] && j > 0 && Start(chunk, j) - Live(marker, chunk, j) <= i && i + |marker| <= to <= Start(chunk, j) + chunk
    ensures BehindFilled(marker, chunk, i)
  {
    LaterStart(chunk, 1, j);
    assert Start(chunk, 1) == chunk;
    if Live(marker, chunk, j) > 0 {
      LiveIsBehindFilled(marker, chunk, j);
    } else {
      assert |marker| - 1 <= Start(chunk, j) <= i;
    }
  }

  /** The window in which a marker ends holds it, if it stands behind a filled carry. */
  lemma WindowIsComplete(file: seq<byte>, marker: seq<byte>, chunk: nat, i: nat, filled: nat, j: nat)
    requires marker != [] && At(marker, file, i) && filled >= 1 && |marker| - 1 <= Start(chunk, filled) <= i
    requires Start(chunk, j) < i + |marker| <= Start(chunk, j) + chunk
    ensures Start(chunk, j) <= |file| && Occurs(marker, Window(file, marker, chunk, j))
  {
    LiveReaches(marker, chunk, i, filled, j);
    var foreign, from, to := WindowShape(file, marker, chunk, j);
    InStretch(file, marker, foreign, from, to, i);
  }

  lemma InStretch(file: seq<byte>, marker: seq<byte>, foreign: seq<byte>, from: nat, to: nat, i: nat)
    requires from <= i && i + |marker| <= to <= |file| && At(marker, file, i)
    ensures Occurs(marker, foreign + file[from..to])
  {
    AtInWhole(marker, file, from, to, i - from);
    AtInWindow(marker, foreign, file[from..to], i - from);
  }

  lemma LiveReaches(marker: seq<byte>, chunk: nat, i: nat, filled: nat, j: nat)
    requires marker != [] && filled >= 1 && |marker| - 1 <= Start(chunk, filled) <= i && Start(chunk, j) < i + |marker|
    ensures Start(chunk, j) - Live(marker, chunk, j) <= i
  {
    if j <= filled {
      LaterStart(chunk, j, filled);
    } else {
      LiveGrows(marker, chunk, filled, j);
    }
  }

  /** The window in which byte `e - 1` is read. */
  lemma WindowOf(chunk: nat, e: nat) returns (j: nat)
    requires chunk > 0 && e > 0
    ensures Start(chunk, j) < e <= Start(chunk, j) + chunk
  {
    j := 0;
    while Start(chunk, j) + chunk < e
      invariant Start(chunk, j) < e
      decreases e - Start(chunk, j)
    {
      assert Start(chunk, j + 1) == Start(chunk, j) + chunk;
      j := j + 1;
    }
  }

  /** A place at which an occurrence is found. */
  ghost predicate Findable(marker: seq<byte>, chunk: nat, i: int) {
    i + |marker| <= chunk || BehindFilled(marker, chunk, i)
  }

  lemma FindableIsFound(file: seq<byte>, marker: seq<byte>, chunk: nat, i: nat)
    requires marker != [] && chunk > 0 && At(marker, file, i) && Findable(marker, chunk, i)
    ensures Found(file, marker, chunk)
  {
    if BehindFilled(marker, chunk, i) {
      var filled: nat :| filled >= 1 && |marker| - 1 <= Start(chunk, filled) <= i;
      var j := WindowOf(chunk, i + |marker|);
      WindowIsComplete(file, marker, chunk, i, filled, j);
    } else {
      assert Window(file, marker, chunk, 0) == file[0..Min(chunk, |file|)];
      AtInWhole(marker, file, 0, Min(chunk, |file|), i);
      assert Start(chunk, 0) <= |file| && Occurs(marker, Window(file, marker, chunk, 0));
    }
  }

  /** A marker without a zero byte is found exactly when some occurrence lies within the first window or
      begins behind a full window by which the carry has its full length. */
  lemma FoundUnlessItCrosses(file: seq<byte>, marker: seq<byte>, chunk: nat)
    requires marker != [] && 0 !in marker && chunk > 0
    ensures Found(file, marker, chunk) <==> exists i :: At(marker, file, i) && Findable(marker, chunk, i)
  {
    if Found(file, marker, chunk) {
      var j: nat :| Start(chunk, j) <= |file| && Occurs(marker, Window(file, marker, chunk, j));
      var s :| At(marker, Window(file, marker, chunk, j), s);
      WindowIsSound(file, marker, chunk, j, s);
    }
    if i :| At(marker, file, i) && Findable(marker, chunk, i) {
      FindableIsFound(file, marker, chunk, i);
    }
  }

  lemma {:induction false} StartsLater(chunk: nat, j: nat)
    requires j >= 1
    ensures Start(chunk, j) >= chunk
  {
    if j > 1 { StartsLater(chunk, j - 1); }
  }

  /** For a marker no longer than a window and one byte these are all places but those from which it crosses
      the end of the first window. */
  lemma FindableExactly(marker: seq<byte>, chunk: nat, i: nat)
    requires |marker| <= chunk + 1
    ensures Findable(marker, chunk, i) <==> i + |marker| <= chunk || i >= chunk
  {
    if i >= chunk {
      assert Start(chunk, 1) == chunk;
      assert BehindFilled(marker, chunk, i);
    }
    if j: nat :| j >= 1 && |marker| - 1 <= Start(chunk, j) <= i {
      StartsLater(chunk, j);
    }
  }

  /** Such a marker without a zero byte is in the file and missed exactly if it occurs, and only where it
      crosses the end of the first window. */
  lemma MissedExactly(file: seq<byte>, marker: seq<byte>, chunk: nat)
    requires marker != [] && 0 !in marker && chunk > 0 && |marker| <= chunk + 1
    ensures Occurs(marker, file) && !Found(file, marker, chunk) <==>
      Occurs(marker, file) && forall i :: At(marker, file, i) ==> i < chunk < i + |marker|
  {
    FoundUnlessItCrosses(file, marker, chunk);
    forall i: int | At(marker, file, i) ensures Findable(marker, chunk, i) <==> i + |marker| <= chunk || i >= chunk {
      FindableExactly(marker, chunk, i);
    }
  }

  /** A file in which the marker crosses the end of the first window: it occurs, and is not found. */
  lemma CrossingMarkerIsMissed(chunk: nat)
    requires chunk > 0
    ensures var file: seq<byte> := seq(chunk - 1, _ => 120) + [97, 98];
      Occurs([97, 98], file) && !Found(file, [97, 98], chunk)
  {
    var marker: seq<byte> := [97, 98];
    var file: seq<byte> := seq(chunk - 1, _ => 120) + marker;
    assert At(marker, file, chunk - 1);
    forall i | At(marker, file, i) ensures i == chunk - 1 {
      assert file[i..i + 2][0] == marker[0];
    }
    forall j: nat | j >= 1 ensures Start(chunk, j) >= chunk {
      LaterStart(chunk, 1, j);
      assert Start(chunk, 1) == chunk;
    }
    FoundUnlessItCrosses(file, marker, chunk);
  }
}
