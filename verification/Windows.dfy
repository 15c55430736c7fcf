/** The receive and send rings of network/include/xy_tcp_wnd.h. */
module Windows {
  import opened Common

  /** XY_RCV_WND_SIZE and XY_SND_WND_SIZE */
  const SIZE := 4096

  /** The 32-bit sequence space */
  const SPACE := 0x1_0000_0000

  type Word = x: nat | x < SPACE

  /** Subtraction of uint32_t values */
  function Minus(a: Word, b: Word): Word {
    (a - b) % SPACE
  }

  // ----- what the rings mean

  /** The ring read from its head: entry k is the slot at offset k. */
  function Rotated<T>(ring: seq<T>, head: nat): (v: seq<T>)
    requires head <= |ring|
    ensures |v| == |ring|
  {
    ring[head..] + ring[..head]
  }

  lemma RotatedAt<T>(ring: seq<T>, head: nat, k: nat)
    requires head <= |ring| && k < |ring|
    ensures Rotated(ring, head)[k] == if head + k < |ring| then ring[head + k] else ring[head + k - |ring|]
  {
  }

  /** The length of the longest gap-free run from the head. */
  function Run<T>(v: seq<Option<T>>): (n: nat)
    ensures n <= |v|
    ensures forall i :: 0 <= i < n ==> v[i].Some?
    ensures n < |v| ==> v[n].None?
  {
    if v == [] || v[0].None? then 0 else 1 + Run(v[1..])
  }

  function Values<T>(v: seq<Option<T>>): (s: seq<T>)
    requires forall i :: 0 <= i < |v| ==> v[i].Some?
    ensures |s| == |v| && forall i :: 0 <= i < |v| ==> s[i] == v[i].value
  {
    seq(|v|, i requires 0 <= i < |v| => v[i].value)
  }

  lemma ValuesPlus<T>(v: seq<Option<T>>, n: nat, list: seq<T>)
    requires n < |v| && v[n].Some? && forall i :: 0 <= i < n ==> v[i].Some?
    ensures list + Values(v[..n + 1]) == list + Values(v[..n]) + [v[n].value]
  {
    assert v[..n + 1] == v[..n] + [v[n]];
  }

  lemma NoValues<T>(v: seq<Option<T>>, list: seq<T>)
    ensures list + Values(v[..0]) == list
  {
  }

  function Blanks<T>(n: nat): (v: seq<Option<T>>)
    ensures |v| == n && forall i :: 0 <= i < n ==> v[i] == None
  {
    seq(n, _ => None)
  }

  /** The window after the run at its head was taken. */
  function Collected<T>(v: seq<Option<T>>): (v': seq<Option<T>>)
    ensures |v'| == |v|
  {
    v[Run(v)..] + Blanks(Run(v))
  }

  lemma CollectedAt<T>(v: seq<Option<T>>)
    ensures forall k :: 0 <= k < |v| ==> Collected(v)[k] == if k + Run(v) < |v| then v[k + Run(v)] else None
  {
  }

  /** The buffers at the head, up to the first gap, went to the end of the list, and the others moved up. */
  ghost predicate HandedOver<T>(v: seq<Option<T>>, v': seq<Option<T>>, list: seq<T>, list': seq<T>) {
    && |v'| == |v| && list <= list' && |list'| - |list| <= |v|
    && var n := |list'| - |list|;
    && (n < |v| ==> v[n].None?)
    && (forall k :: 0 <= k < n ==> v[k] == Some(list'[|list| + k]))
    && forall k :: 0 <= k < |v| ==> v'[k] == if k + n < |v| then v[k + n] else None
  }

  lemma CollectedHandsOver<T>(v: seq<Option<T>>, list: seq<T>)
    ensures HandedOver(v, Collected(v), list, list + Values(v[..Run(v)]))
  {
    CollectedAt(v);
  }

  /** The window after `x` arrived `offset` places after the head.  Offset SIZE is one too
      many: it is admitted, and lands on the head's own slot. */
  function Admitted<T>(v: seq<Option<T>>, offset: nat, x: T): (v': seq<Option<T>>)
    requires |v| == SIZE
    ensures |v'| == SIZE
  {
    if offset > SIZE then v else v[(if offset == SIZE then 0 else offset) := Some(x)]
  }

  /** One slot was written, and nothing else. */
  ghost predicate Put<T>(v: seq<Option<T>>, v': seq<Option<T>>, slot: nat, x: T) {
    && |v'| == |v| && slot < |v| && v'[slot] == Some(x)
    && forall k :: 0 <= k < |v| && k != slot ==> v'[k] == v[k]
  }

  lemma AdmittedPuts<T>(v: seq<Option<T>>, offset: nat, x: T)
    requires |v| == SIZE
    ensures if offset <= SIZE then Put(v, Admitted(v, offset, x), offset % SIZE, x) else Admitted(v, offset, x) == v
  {
  }

  lemma RunUnique<T>(v: seq<Option<T>>, n: nat)
    requires n <= |v| && (forall i :: 0 <= i < n ==> v[i].Some?) && (n < |v| ==> v[n].None?)
    ensures n == Run(v)
  {
  }

  /** Taking the run off the front shifts what is known of every slot by its length. */
  lemma CollectShifts<T>(v: seq<Option<T>>, p: (nat, T) -> bool)
    requires forall k: nat :: k < |v| && v[k].Some? ==> p(k, v[k].value)
    ensures forall k: nat :: k < Run(v) ==> p(k, Values(v[..Run(v)])[k])
    ensures forall k: nat :: k < |v| && Collected(v)[k].Some? ==> p(k + Run(v), Collected(v)[k].value)
  {
    forall k: nat | k < |v| && Collected(v)[k].Some? ensures p(k + Run(v), Collected(v)[k].value) {
      assert Collected(v)[k] == v[k + Run(v)];
    }
  }

  // ----- the receive ring

  class RcvWindow<T(0)> {
    var head: nat
    const buffer: array<Option<T>>

    ghost predicate Valid()
      reads this
    {
      head < SIZE && buffer.Length == SIZE
    }

    ghost function View(): (v: seq<Option<T>>)
      requires Valid()
      reads this, buffer
      ensures |v| == SIZE
    {
      Rotated(buffer[..], head)
    }

    constructor ()
      ensures Valid() && fresh(buffer) && View() == Blanks(SIZE)
    {
      head := 0;
      buffer := new Option<T>[SIZE](_ => None);
    }

    /** xy_tcp_rcv_wnd_try_put */
    method TryPut(headSeq: Word, sq: Word, mbuf: T) returns (ok: bool)
      requires Valid()
      modifies buffer
      ensures Valid() && ok == (Minus(sq, headSeq) <= SIZE)
      ensures View() == Admitted(old(View()), Minus(sq, headSeq), mbuf)
      ensures !ok ==> View() == old(View())
      ensures ok ==> Put(old(View()), View(), Minus(sq, headSeq) % SIZE, mbuf)
    {
      hide Put;
      var offset := Minus(sq, headSeq);
      if offset > SIZE {
        return false;
      }
      var slot := head + offset;
      if slot >= SIZE {
        slot := slot - SIZE;
      }
      AdmittedPuts(View(), offset, mbuf);
      PutAt(buffer[..], head, if offset == SIZE then 0 else offset, slot, Some(mbuf));
      buffer[slot] := Some(mbuf);
      assert buffer[..] == old(buffer[..])[slot := Some(mbuf)];
      return true;
    }

    /** xy_tcp_rcv_wnd_collect */
    method Collect(list: seq<T>) returns (count: nat, list': seq<T>)
      requires Valid()
      modifies this`head, buffer
      ensures Valid() && count == Run(old(View()))
      ensures list' == list + Values(old(View())[..count])
      ensures View() == Collected(old(View()))
      ensures HandedOver(old(View()), View(), list, list')
    {
      hide Rotated, Collected, Run, HandedOver, Values;
      ghost var ring, v := buffer[..], View();
      CollectedHandsOver(v, list);
      NoValues(v, list);
      count, list' := 0, list;
      for i := head to SIZE
        invariant count == i - head && head == old(head)
        invariant forall k :: 0 <= k < count ==> v[k].Some?
        invariant list' == list + Values(v[..count])
        invariant forall k :: 0 <= k < SIZE ==> buffer[k] == if head <= k < i then None else ring[k]
      {
        RotatedAt(ring, old(head), count);
        if buffer[i].None? {
          head := i;
          TookRun(ring, old(head), buffer[..], head, count);
          return;
        }
        ValuesPlus(v, count, list);
        list' := list' + [buffer[i].value];
        buffer[i] := None;
        count := count + 1;
      }
      for i := 0 to head
        invariant count == SIZE - head + i && head == old(head)
        invariant forall k :: 0 <= k < count ==> v[k].Some?
        invariant list' == list + Values(v[..count])
        invariant forall k :: 0 <= k < SIZE ==> buffer[k] == if head <= k || k < i then None else ring[k]
      {
        RotatedAt(ring, old(head), count);
        if buffer[i].None? {
          head := i;
          TookRun(ring, old(head), buffer[..], head, count);
          return;
        }
        ValuesPlus(v, count, list);
        list' := list' + [buffer[i].value];
        buffer[i] := None;
        count := count + 1;
      }
      TookRun(ring, old(head), buffer[..], head, count);
    }
  }

  /** Blanking `n` slots from `head` on and moving the head past them, around the ring. */
  lemma TookRun<T>(ring: seq<Option<T>>, head: nat, ring': seq<Option<T>>, head': nat, n: nat)
    requires |ring| == |ring'| == SIZE && head < SIZE && n <= SIZE
    requires head' == (if head + n < SIZE then head + n else head + n - SIZE)
    requires forall i :: 0 <= i < n ==> Rotated(ring, head)[i].Some?
    requires n < SIZE ==> Rotated(ring, head)[n].None?
    requires forall k :: 0 <= k < SIZE ==>
      ring'[k] == if head <= k < head + n || k < head + n - SIZE then None else ring[k]
    ensures n == Run(Rotated(ring, head)) && Rotated(ring', head') == Collected(Rotated(ring, head))
  {
    var v, v' := Rotated(ring, head), Rotated(ring', head');
    RunUnique(v, n);
    forall k | 0 <= k < SIZE ensures v'[k] == Collected(v)[k] {
      var slot := if head' + k < SIZE then head' + k else head' + k - SIZE;
      assert v'[k] == ring'[slot];
      if k < SIZE - n {
        assert Collected(v)[k] == v[n + k] == ring[slot];
      }
    }
  }

  lemma PutAt<T>(ring: seq<T>, head: nat, k: nat, slot: nat, x: T)
    requires head < |ring| && k < |ring| && slot == if head + k < |ring| then head + k else head + k - |ring|
    ensures Rotated(ring[slot := x], head) == Rotated(ring, head)[k := x]
  {
  }

  // ----- the send ring

  class SndWindow<T(0)> {
    var head: nat
    var tail: nat
    const buffer: array<T>

    ghost predicate Valid()
      reads this
    {
      head < SIZE && tail < SIZE && buffer.Length == SIZE
    }

    /** The unacknowledged buffers, oldest first. */
    ghost function Contents(): (c: seq<T>)
      requires Valid()
      reads this, buffer
      ensures |c| < SIZE
    {
      if head <= tail then buffer[head..tail] else buffer[head..] + buffer[..tail]
    }

    constructor ()
      ensures Valid() && fresh(buffer) && Contents() == []
    {
      head, tail := 0, 0;
      buffer := new T[SIZE];
    }

    /** xy_tcp_snd_wnd_size */
    function Size(): (n: nat)
      requires Valid()
      reads this, buffer
      ensures n == |Contents()|
    {
      if head > tail then SIZE + tail - head else tail - head
    }

    /** buffer[head_], which the sender reads directly */
    function Oldest(): (m: T)
      requires Valid() && Contents() != []
      reads this, buffer
      ensures m == Contents()[0]
    {
      buffer[head]
    }

    /** xy_tcp_snd_wnd_add: the ring holds at most 4095 buffers; a 4096th makes it look empty. */
    method Add(mbuf: T)
      requires Valid()
      modifies this`tail, buffer
      ensures Valid()
      ensures Contents() == if |old(Contents())| < SIZE - 1 then old(Contents()) + [mbuf] else []
    {
      buffer[tail] := mbuf;
      tail := tail + 1;
      if tail == SIZE {
        tail := 0;
      }
    }

    /** xy_tcp_snd_wnd_erase */
    method Erase(n: nat) returns (erased: nat)
      requires Valid() && n <= |Contents()|
      modifies this`head
      ensures Valid() && erased == n && Contents() == old(Contents())[n..]
    {
      var h := head + n;
      head := if h < SIZE then h else h - SIZE;
      return n;
    }
  }
}
