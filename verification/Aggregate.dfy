/** Round-robin receiving over the members of an aggregate. */
module Aggregate {
  import opened Bits
  import opened Wrappers

  /** Member at a cursor position. */
  function MemberAt(cursor: nat, n: nat): (r: nat)
    requires n > 0
    ensures r < n
  {
    cursor % n
  }

  /** Members visited by `k` successive cursor steps. */
  function Window(start: nat, k: nat, n: nat): (r: seq<nat>)
    requires n > 0
    ensures |r| == k && forall i :: 0 <= i < k ==> r[i] == MemberAt(start + i, n)
  {
    seq<nat>(k, i requires 0 <= i < k => MemberAt(start + i, n))
  }

  ghost predicate NoErrors(answers: seq<Option<nat>>, k: nat)
  {
    k <= |answers| && forall i :: 0 <= i < k ==> answers[i].Some?
  }

  function SumOf(answers: seq<Option<nat>>, k: nat): nat
    requires NoErrors(answers, k)
  {
    if k == 0 then 0 else SumOf(answers, k - 1) + answers[k - 1].value
  }

  /** Packets in a batch of this room after `k` members have answered. */
  function Filled(room: nat, answers: seq<Option<nat>>, k: nat): nat
    requires NoErrors(answers, k)
  {
    Min(room, SumOf(answers, k))
  }

  /** Outcome of one sweep over `n` members: `k` of them were asked, each while the batch
      had room.  It ends with the members, with the room, or with the last one's error. */
  ghost predicate SweepOutcome(n: nat, room: nat, answers: seq<Option<nat>>, k: nat, added: nat, r: Option<nat>)
    requires |answers| == n
  {
    && k <= n && (k > 0 ==> NoErrors(answers, k - 1) && Filled(room, answers, k - 1) < room)
    && match r
       case Some(total) =>
         NoErrors(answers, k) && total == added == Filled(room, answers, k) && (k == n || added == room)
       case None =>
         k > 0 && answers[k - 1].None? && added == Filled(room, answers, k - 1)
  }

  class Aggregate {
    const n: nat
    var rxRr: nat
    /** Members whose `recv` was called, in order. */
    ghost var visited: seq<nat>

    ghost predicate Valid()
      reads this
    {
      n > 0 && rxRr < n
    }

    constructor (n: nat)
      requires n > 0
      ensures Valid() && this.n == n && visited == [] && rxRr == 0
    {
      this.n, rxRr, visited := n, 0, [];
    }

    /** `recv`: the i-th member asked has `answers[i]` packets, of which it adds what the
        batch still has room for, or fails.  Members are asked in cyclic order from the
        cursor, which moves past them, or stays where it was after an error. */
    method Recv(room: nat, answers: seq<Option<nat>>) returns (r: Option<nat>, added: nat, ghost k: nat)
      requires Valid() && |answers| == n
      modifies this
      ensures Valid() && SweepOutcome(n, room, answers, k, added, r)
      ensures visited == old(visited) + Window(old(rxRr), k, n)
      ensures rxRr == if r.Some? then MemberAt(old(rxRr) + k, n) else old(rxRr)
    {
      hide MemberAt;
      added, k := 0, 0;
      var cursor := rxRr;
      var i: nat := 0;
      assert Window(rxRr, 0, n) == [];
      while i < n && added < room
        invariant 0 <= i <= n && cursor == rxRr + i && rxRr == old(rxRr) && NoErrors(answers, i)
        invariant visited == old(visited) + Window(rxRr, i, n) && k == i && added == Filled(room, answers, i)
        invariant i > 0 ==> Filled(room, answers, i - 1) < room
        decreases n - i
      {
        assert Window(rxRr, i + 1, n) == Window(rxRr, i, n) + [MemberAt(rxRr + i, n)];
        var answer := answers[i];
        visited := visited + [MemberAt(cursor, n)];
        k := k + 1;
        if answer.None? { return None, added, k; }
        added := added + Min(answer.value, room - added);
        cursor := cursor + 1;
        i := i + 1;
      }
      rxRr := MemberAt(cursor, n);
      return Some(added), added, k;
    }

    /** Any run of calls, some of them perhaps failing: as soon as `n` calls with room have
        succeeded, every one of the `n` members has been asked. */
    method RecvRun(rooms: seq<nat>, answers: seq<seq<Option<nat>>>) returns (results: seq<Option<nat>>)
      requires Valid() && |answers| == |rooms| && forall i :: 0 <= i < |answers| ==> |answers[i]| == n
      modifies this
      ensures Valid() && |results| == |rooms| && old(visited) <= visited
      ensures forall i :: 0 <= i < |rooms| && NoErrors(answers[i], n) ==> results[i].Some?
      ensures Successes(rooms, results, |rooms|) >= n ==> forall m :: 0 <= m < n ==> m in visited[|old(visited)|..]
    {
      hide MemberAt;
      results := [];
      ghost var steps: nat := 0;
      ghost var start := rxRr;
      CursorStart(start, n);
      for i := 0 to |rooms|
        invariant Valid() && |results| == i && old(visited) <= visited
        invariant forall j :: 0 <= j < i && NoErrors(answers[j], n) ==> results[j].Some?
        invariant rxRr == MemberAt(start + steps, n) && steps >= Successes(rooms, results, i)
        invariant Covers(visited[|old(visited)|..], start, steps, n)
      {
        ghost var before, cursor := visited, rxRr;
        var r, _, k := Recv(rooms[i], answers[i]);
        SuccessesExtend(rooms, results, r, i);
        Covered(start, steps, k, n, cursor, before[|old(visited)|..]);
        assert visited[|old(visited)|..] == before[|old(visited)|..] + Window(cursor, k, n);
        if r.Some? {
          CursorWraps(start + steps, k, n);
          steps := steps + k;
        }
        results := results + [r];
      }
      if steps >= n {
        forall m | 0 <= m < n
          ensures m in visited[|old(visited)|..]
        {
          var j := StepOf(start, m, n);
          assert Window(start, steps, n)[j] == m;
        }
      }
    }
  }

  // ---------------------------------------------------------------- fairness

  /** Successful calls with room among the first `k`. */
  function Successes(rooms: seq<nat>, results: seq<Option<nat>>, k: nat): nat
    requires k <= |rooms| && k <= |results|
  {
    if k == 0 then 0 else Successes(rooms, results, k - 1) + if rooms[k - 1] > 0 && results[k - 1].Some? then 1 else 0
  }

  lemma {:induction false} SuccessesExtend(rooms: seq<nat>, results: seq<Option<nat>>, r: Option<nat>, k: nat)
    requires k <= |results| && k <= |rooms|
    ensures Successes(rooms, results + [r], k) == Successes(rooms, results, k)
  {
    if k > 0 { SuccessesExtend(rooms, results, r, k - 1); }
  }

  lemma CursorStart(start: nat, n: nat)
    requires start < n
    ensures MemberAt(start, n) == start
  {
    MemberBelow(start, n);
  }

  /** Reducing the cursor does not change where it goes next. */
  lemma CursorWraps(cursor: nat, i: nat, n: nat)
    requires n > 0
    ensures MemberAt(MemberAt(cursor, n) + i, n) == MemberAt(cursor + i, n)
  {
    var q, r := cursor / n, cursor % n;
    var q', r' := (r + i) / n, (r + i) % n;
    assert cursor + i == q * n + (q' * n + r');
    assert q * n + q' * n == (q + q') * n;
    DivModUnique(cursor + i, n, q + q', r');
  }

  lemma MemberBelow(m: nat, n: nat)
    requires m < n
    ensures MemberAt(m, n) == m && MemberAt(m + n, n) == m
  {
    DivModUnique(m, n, 0, m);
    DivModUnique(m + n, n, 1, m);
  }

  /** Every member of the first `steps` steps was asked. */
  ghost predicate Covers(seen: seq<nat>, start: nat, steps: nat, n: nat)
    requires n > 0
  {
    forall m :: m in Window(start, steps, n) ==> m in seen
  }

  /** A window from the cursor continues the walk. */
  lemma Covered(start: nat, steps: nat, k: nat, n: nat, cursor: nat, seen: seq<nat>)
    requires n > 0 && cursor == MemberAt(start + steps, n) && Covers(seen, start, steps, n)
    ensures Covers(seen + Window(cursor, k, n), start, steps, n)
    ensures Covers(seen + Window(cursor, k, n), start, steps + k, n)
  {
    hide MemberAt;
    var walk, window := Window(start, steps + k, n), Window(cursor, k, n);
    forall m | m in walk
      ensures m in seen + window
    {
      var j :| 0 <= j < |walk| && walk[j] == m;
      if j < steps {
        assert Window(start, steps, n)[j] == m;
      } else {
        CursorWraps(start + steps, j - steps, n);
        assert window[j - steps] == m;
      }
    }
  }

  /** The step of a full turn at which a member is reached. */
  lemma StepOf(start: nat, m: nat, n: nat) returns (j: nat)
    requires start < n && m < n
    ensures j < n && MemberAt(start + j, n) == m
  {
    MemberBelow(m, n);
    j := if m >= start then m - start else m + n - start;
  }
}
