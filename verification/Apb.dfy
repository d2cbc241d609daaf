/** Extraction of APB transfers from an event trace (AMBA APB, ARM IHI 0024, section 4.1). */
module Apb {
  import opened Wrappers

  datatype Event = Event(
    cycle: int, rstN: bool, psel: bool, penable: bool, pready: bool, pwrite: bool, pslverr: bool, paddr: nat)

  datatype Transaction = Transaction(write: bool, wait: nat, cycle: int, address: nat, error: bool, completeCycle: int)

  /** A transaction under way. */
  datatype Active = Active(write: bool, wait: nat, cycle: int, address: nat)

  predicate Setup(e: Event) { e.rstN && e.psel && !e.penable }

  predicate Access(e: Event) { e.rstN && e.psel && e.penable }

  predicate Completes(e: Event) { Access(e) && e.pready }

  /** After such an event no transfer is under way. */
  predicate Closes(e: Event) { !e.rstN || Completes(e) }

  // ----- windows, declaratively -----

  /** Row s begins the transfer under way before row n: nothing closed since, and no earlier
      setup row begins it. */
  ghost predicate OpenSince(events: seq<Event>, s: nat, n: nat)
    requires n <= |events|
  {
    && s < n && Setup(events[s])
    && (forall i :: s < i < n ==> !Closes(events[i]))
    && (forall r :: 0 <= r < s && Setup(events[r]) ==> ClosedBetween(events, r, s))
  }

  ghost predicate ClosedBetween(events: seq<Event>, r: nat, s: nat)
    requires r < s <= |events|
  {
    exists i :: r < i < s && Closes(events[i])
  }

  /** A completed transfer: setup at s, first ready access at k. */
  ghost predicate Window(events: seq<Event>, s: nat, k: nat) {
    k < |events| && OpenSince(events, s, k) && Completes(events[k])
  }

  /** Unready access rows from a up to b. */
  function Waits(events: seq<Event>, a: nat, b: nat): nat
    requires a <= b <= |events|
  {
    if a == b then 0
    else Waits(events, a, b - 1) + (if Access(events[b - 1]) && !events[b - 1].pready then 1 else 0)
  }

  function TransactionOf(events: seq<Event>, w: (nat, nat)): Transaction
    requires w.0 < w.1 < |events|
  {
    Transaction(events[w.0].pwrite, Waits(events, w.0 + 1, w.1), events[w.0].cycle, events[w.0].paddr,
                events[w.1].pslverr, events[w.1].cycle)
  }

  // ----- the extraction -----

  /** The setup row of the transfer under way before row n. */
  function OpenSetup(events: seq<Event>, n: nat): (s: Option<nat>)
    requires n <= |events|
    ensures s.Some? ==> s.value < n
  {
    if n == 0 then None
    else
      var before := OpenSetup(events, n - 1);
      if Closes(events[n - 1]) then None
      else if Setup(events[n - 1]) && before.None? then Some(n - 1)
      else before
  }

  /** The windows completed before row n, in order. */
  function Windows(events: seq<Event>, n: nat): (ws: seq<(nat, nat)>)
    requires n <= |events|
    ensures forall w :: w in ws ==> w.0 < w.1 < n
  {
    if n == 0 then []
    else
      var s := OpenSetup(events, n - 1);
      if s.Some? && Completes(events[n - 1]) then Windows(events, n - 1) + [(s.value, n - 1)]
      else Windows(events, n - 1)
  }

  function TransactionsOf(events: seq<Event>, ws: seq<(nat, nat)>): seq<Transaction>
    requires forall w :: w in ws ==> w.0 < w.1 < |events|
  {
    seq(|ws|, i requires 0 <= i < |ws| => TransactionOf(events, ws[i]))
  }

  function ActiveOf(events: seq<Event>, n: nat): Option<Active>
    requires n <= |events|
  {
    var s := OpenSetup(events, n);
    if s.None? then None
    else
      var setup := events[s.value];
      Some(Active(setup.pwrite, Waits(events, s.value + 1, n), setup.cycle, setup.paddr))
  }

  /** apb_transactions */
  method ApbTransactions(events: seq<Event>) returns (transactions: seq<Transaction>)
    ensures transactions == TransactionsOf(events, Windows(events, |events|))
  {
    transactions := [];
    var active: Option<Active> := None;
    for n := 0 to |events|
      invariant active == ActiveOf(events, n)
      invariant transactions == TransactionsOf(events, Windows(events, n))
    {
      var e := events[n];
      if !e.rstN {
        active := None;
      } else if e.psel && !e.penable && active.None? {
        active := Some(Active(e.pwrite, 0, e.cycle, e.paddr));
      } else if active.Some? && e.psel && e.penable {
        var a := active.value;
        if e.pready {
          transactions := transactions + [Transaction(a.write, a.wait, a.cycle, a.address, e.pslverr, e.cycle)];
          active := None;
        } else {
          active := Some(a.(wait := a.wait + 1));
        }
      }
    }
  }

  // ----- the extraction finds the windows -----

  /** The setup row kept by the loop is the one that begins the transfer under way. */
  lemma {:induction false} OpenSetupIff(events: seq<Event>, n: nat, s: nat)
    requires n <= |events|
    ensures OpenSetup(events, n) == Some(s) <==> OpenSince(events, s, n)
    decreases n
  {
    if n > 0 {
      var e := events[n - 1];
      var before := OpenSetup(events, n - 1);
      OpenSetupIff(events, n - 1, s);
      if s == n - 1 && Setup(e) {
        if before.Some? {
          OpenSetupIff(events, n - 1, before.value);
          assert !ClosedBetween(events, before.value, s);
        } else {
          IdleMeansClosed(events, n - 1);
        }
      }
    }
  }

  /** With no transfer under way, every earlier setup row has been closed. */
  lemma {:induction false} IdleMeansClosed(events: seq<Event>, n: nat)
    requires n <= |events| && OpenSetup(events, n).None?
    ensures forall r :: 0 <= r < n && Setup(events[r]) ==> ClosedBetween(events, r, n)
    decreases n
  {
    if n > 0 {
      forall r | 0 <= r < n && Setup(events[r]) ensures ClosedBetween(events, r, n) {
        if Closes(events[n - 1]) {
          assert r < n - 1;
        } else {
          IdleMeansClosed(events, n - 1);
          var i :| r < i < n - 1 && Closes(events[i]);
        }
      }
    }
  }

  /** Every completed window is emitted, and nothing else. */
  lemma {:induction false} WindowsComplete(events: seq<Event>, n: nat, s: nat, k: nat)
    requires n <= |events|
    ensures (s, k) in Windows(events, n) <==> k < n && Window(events, s, k)
    decreases n
  {
    if n > 0 {
      WindowsComplete(events, n - 1, s, k);
      if k == n - 1 {
        OpenSetupIff(events, n - 1, s);
      }
    }
  }

  /** In order, and never overlapping. */
  ghost predicate Ordered(ws: seq<(nat, nat)>) {
    forall i, j :: 0 <= i < j < |ws| ==> ws[i].1 < ws[j].0
  }

  ghost predicate AllBefore(ws: seq<(nat, nat)>, s: nat) {
    forall i :: 0 <= i < |ws| ==> ws[i].1 < s
  }

  lemma OrderedSnoc(ws: seq<(nat, nat)>, w: (nat, nat))
    requires Ordered(ws) && AllBefore(ws, w.0) && w.0 < w.1
    ensures Ordered(ws + [w]) && AllBefore(ws + [w], w.1 + 1)
  {
  }

  /** Windows are emitted in order, each once, and never overlap; the one under way begins
      after them all. */
  lemma {:induction false} WindowsDisjoint(events: seq<Event>, n: nat)
    requires n <= |events|
    ensures Ordered(Windows(events, n)) && AllBefore(Windows(events, n), n)
    ensures OpenSetup(events, n).Some? ==> AllBefore(Windows(events, n), OpenSetup(events, n).value)
    decreases n
  {
    if n > 0 {
      WindowsDisjoint(events, n - 1);
      var open := OpenSetup(events, n - 1);
      if open.Some? && Completes(events[n - 1]) {
        OrderedSnoc(Windows(events, n - 1), (open.value, n - 1));
      }
    }
  }

  /** A window, in the columns of the rows: setup at s, first ready access at k, no reset and
      no other completion between, and every earlier setup row closed before s. */
  lemma WindowMeans(events: seq<Event>, s: nat, k: nat)
    ensures Window(events, s, k) <==>
      && s < k < |events|
      && events[s].rstN && events[s].psel && !events[s].penable
      && events[k].rstN && events[k].psel && events[k].penable && events[k].pready
      && (forall i :: s < i < k ==> events[i].rstN && !(events[i].psel && events[i].penable && events[i].pready))
      && (forall r :: 0 <= r < s && events[r].rstN && events[r].psel && !events[r].penable ==>
           exists i :: r < i < s && (!events[i].rstN || (events[i].psel && events[i].penable && events[i].pready)))
  {
    if s < k < |events| {
      forall r | 0 <= r < s && Setup(events[r])
        ensures ClosedBetween(events, r, s) <==>
          exists i :: r < i < s && (!events[i].rstN || (events[i].psel && events[i].penable && events[i].pready))
      {
        if ClosedBetween(events, r, s) {
          var i :| r < i < s && Closes(events[i]);
        }
        if i :| r < i < s && (!events[i].rstN || (events[i].psel && events[i].penable && events[i].pready)) {
          assert Closes(events[i]);
        }
      }
    }
  }

  /** The wait count is the number of unready access rows. */
  lemma {:induction false} WaitsCount(events: seq<Event>, a: nat, b: nat)
    requires a <= b <= |events|
    ensures Waits(events, a, b) == |UnreadyRows(events, a, b)|
    decreases b
  {
    if a == b {
      assert UnreadyRows(events, a, b) == {};
    } else {
      WaitsCount(events, a, b - 1);
      var rest, e := UnreadyRows(events, a, b - 1), events[b - 1];
      assert b - 1 !in rest;
      assert UnreadyRows(events, a, b) == if e.rstN && e.psel && e.penable && !e.pready then rest + {b - 1} else rest;
    }
  }

  function UnreadyRows(events: seq<Event>, a: nat, b: nat): set<int>
    requires a <= b <= |events|
  {
    set i | a <= i < b && events[i].rstN && events[i].psel && events[i].penable && !events[i].pready
  }

  /** The columns that a transaction takes from its setup row, its last row and between. */
  lemma TransactionColumns(events: seq<Event>, s: nat, k: nat)
    requires s < k < |events|
    ensures var t := TransactionOf(events, (s, k));
            && t.write == events[s].pwrite && t.cycle == events[s].cycle && t.address == events[s].paddr
            && t.error == events[k].pslverr && t.completeCycle == events[k].cycle
            && t.wait == |UnreadyRows(events, s + 1, k)|
  {
    WaitsCount(events, s + 1, k);
  }

  /** The transactions returned are exactly the completed windows, in order, once each. */
  lemma ExtractionCorrect(events: seq<Event>)
    ensures var ws := Windows(events, |events|);
            && (forall s: nat, k: nat :: (s, k) in ws <==> Window(events, s, k))
            && Ordered(ws)
            && (forall i :: 0 <= i < |ws| ==>
                 && ws[i].0 < ws[i].1 < |events|
                 && TransactionsOf(events, ws)[i] == TransactionOf(events, ws[i])
                 && TransactionsOf(events, ws)[i] ==
                      Transaction(events[ws[i].0].pwrite, |UnreadyRows(events, ws[i].0 + 1, ws[i].1)|,
                                  events[ws[i].0].cycle, events[ws[i].0].paddr,
                                  events[ws[i].1].pslverr, events[ws[i].1].cycle))
  {
    hide UnreadyRows, Waits;
    forall w | w in Windows(events, |events|)
      ensures Waits(events, w.0 + 1, w.1) == |UnreadyRows(events, w.0 + 1, w.1)|
    {
      WaitsCount(events, w.0 + 1, w.1);
    }
    forall s: nat, k: nat ensures (s, k) in Windows(events, |events|) <==> Window(events, s, k) {
      WindowsComplete(events, |events|, s, k);
    }
    WindowsDisjoint(events, |events|);
  }
}
