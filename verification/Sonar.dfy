/** The rolling sonar windows of motion/SonarRecorder.cpp. */
module Sonar {

  const WINDOW_SIZE := 4
  const CYCLES_PER_PING := 10
  const READINGS_PER_SIDE := 10

  const NO_PING := -1.0
  const TLRL := 0.0    // transmit left, receive on left
  const TLRR := 1.0    // transmit left, receive on right
  const TRRL := 2.0    // transmit right, receive on left
  const TRRR := 3.0    // transmit right, receive on right
  const RBOTH := 4.0   // use both receivers

  const MIN := 0.25
  const MAX := 2.5

  const LEFT := 0
  const MIDDLE := 1
  const RIGHT := 2

  const COMMANDS: seq<real> := [TLRL, TLRR, TRRR, TLRL, TRRL, TRRR]

  /** The readings of one ping, left ones first. */
  predicate IsReadings(sonar: seq<real>) {
    |sonar| == 2 * READINGS_PER_SIDE
  }

  predicate ArePings(pings: seq<seq<real>>) {
    forall i :: 0 <= i < |pings| ==> IsReadings(pings[i])
  }

  // ---------------------------------------------------------------- what the windows should hold

  /** A reading in millimetres; what is too close counts as the least distance. */
  function Millimetres(x: real): int {
    if x <= MIN then 250 else (x * 1000.0).Floor
  }

  /** Whole millimetres, rounded down, but not below the least distance; a longer distance never becomes a
      shorter one. */
  lemma MillimetresRounds(x: real, y: real)
    ensures x >= 0.25 ==> Millimetres(x) as real <= 1000.0 * x < Millimetres(x) as real + 1.0
    ensures x <= 0.25 ==> Millimetres(x) == 250
    ensures x <= y ==> Millimetres(x) <= Millimetres(y)
  {
  }

  /** The readings of a list that are in range, in order. */
  function Filtered(s: seq<real>): seq<int> {
    if s == [] then [] else
    var r, x := Filtered(s[..|s| - 1]), s[|s| - 1];
    if x < MAX then r + [Millimetres(x)] else r
  }

  /** The places of the readings in range, in ascending order. */
  ghost predicate PlacesInRange(s: seq<real>, places: seq<nat>) {
    && (forall i, j :: 0 <= i < j < |places| ==> places[i] < places[j])
    && forall k: nat :: k in places <==> k < |s| && s[k] < MAX
  }

  /** Exactly the readings in range are kept, in their order, and each becomes its distance in
      millimetres, between 250 and 2499. */
  lemma FilteredInRange(s: seq<real>) returns (places: seq<nat>)
    ensures PlacesInRange(s, places) && |Filtered(s)| == |places|
    ensures forall i :: 0 <= i < |places| ==> places[i] < |s| && Filtered(s)[i] == Millimetres(s[places[i]])
    ensures forall i :: 0 <= i < |Filtered(s)| ==> 250 <= Filtered(s)[i] < 2500
  {
    places := KeptPlaces(s);
    forall i | 0 <= i < |places|
      ensures 250 <= Filtered(s)[i] < 2500
    {
      assert places[i] in places;
    }
  }

  ghost predicate KeptFrom(s: seq<real>, places: seq<nat>, kept: seq<int>) {
    && |kept| == |places|
    && forall i :: 0 <= i < |places| ==> places[i] < |s| && kept[i] == Millimetres(s[places[i]])
  }

  lemma {:induction false} KeptPlaces(s: seq<real>) returns (places: seq<nat>)
    ensures PlacesInRange(s, places) && KeptFrom(s, places, Filtered(s))
  {
    places := [];
    if s != [] {
      var n, x := |s| - 1, s[|s| - 1];
      places := KeptPlaces(s[..n]);
      assert s == s[..n] + [x];
      PlacesNext(s[..n], x, places);
      KeptNext(s[..n], x, places, Filtered(s[..n]), Millimetres(x));
      if x < MAX {
        places := places + [n];
      }
    }
  }

  lemma KeptNext(s: seq<real>, x: real, places: seq<nat>, kept: seq<int>, y: int)
    requires KeptFrom(s, places, kept) && y == Millimetres(x)
    ensures KeptFrom(s + [x], places, kept) && KeptFrom(s + [x], places + [|s|], kept + [y])
  {
  }

  lemma PlacesNext(s: seq<real>, x: real, places: seq<nat>)
    requires PlacesInRange(s, places)
    ensures PlacesInRange(s + [x], if x < MAX then places + [|s|] else places)
    ensures forall i :: 0 <= i < |places| ==> places[i] < |s| && (s + [x])[places[i]] == s[places[i]]
  {
    forall i | 0 <= i < |places|
      ensures places[i] < |s| && (s + [x])[places[i]] == s[places[i]]
    {
      assert places[i] in places;
    }
    forall k: nat
      ensures k in (if x < MAX then places + [|s|] else places) <==> k < |s + [x]| && (s + [x])[k] < MAX
    {
      assert k < |s| ==> (s + [x])[k] == s[k];
    }
  }

  /** What the pings contributed to each window, oldest first. */
  datatype Parts = Parts(left: seq<seq<int>>, middle: seq<seq<int>>, right: seq<seq<int>>)

  /** A ping's command says which window it belongs to and which receiver it is heard with. */
  function NextParts(p: Parts, command: real, left: seq<int>, right: seq<int>): Parts {
    if command == TLRL then p.(left := p.left + [left])
    else if command == TRRR then p.(right := p.right + [right])
    else if command == TRRL then p.(middle := p.middle + [left])
    else if command == TLRR then p.(middle := p.middle + [right])
    else p
  }

  /** The readings in range of the left receiver, which come first, and of the right one. */
  function LeftOf(ping: seq<real>): seq<int>
    requires IsReadings(ping)
  {
    Filtered(ping[..10])
  }

  function RightOf(ping: seq<real>): seq<int>
    requires IsReadings(ping)
  {
    Filtered(ping[10..])
  }

  /** By their numbers: pings 0, 3, 6, ... go to the left window with what the left receiver heard, pings
      2, 5, 8, ... to the right window with what the right one heard; pings 1, 7, 13, ... are heard
      with the right receiver, pings 4, 10, 16, ... with the left one, and go to the middle. */
  ghost predicate PartsOf(p: Parts, pings: seq<seq<real>>)
    requires ArePings(pings)
  {
    var n := |pings|;
    && n <= 3 * |p.left| < n + 3 && n - 1 <= 3 * |p.middle| < n + 2 && n - 2 <= 3 * |p.right| < n + 1
    && (forall j :: 0 <= j < |p.left| ==> p.left[j] == LeftOf(pings[3 * j]))
    && (forall j :: 0 <= j < |p.right| ==> p.right[j] == RightOf(pings[3 * j + 2]))
    && (forall j :: 0 <= j < |p.middle| ==>
          p.middle[j] == if j % 2 == 0 then RightOf(pings[3 * j + 1]) else LeftOf(pings[3 * j + 1]))
  }

  /** Ping n is made with command n mod 6, which sends it where its number says. */
  lemma PartsGrow(p: Parts, pings: seq<seq<real>>, sonar: seq<real>)
    requires ArePings(pings) && PartsOf(p, pings) && IsReadings(sonar)
    ensures PartsOf(NextParts(p, COMMANDS[|pings| % 6], LeftOf(sonar), RightOf(sonar)), pings + [sonar])
  {
    var n, q, r := |pings|, |pings| / 3, |pings| % 3;
    var p', pings' := NextParts(p, COMMANDS[n % 6], LeftOf(sonar), RightOf(sonar)), pings + [sonar];
    assert pings'[..n] == pings;
    CommandAt(n, q, r);
    LeftGrows(p.left, p'.left, pings', q, r);
    MiddleGrows(p.middle, p'.middle, pings', q, r);
    RightGrows(p.right, p'.right, pings', q, r);
  }

  lemma LeftGrows(s: seq<seq<int>>, t: seq<seq<int>>, pings: seq<seq<real>>, q: nat, r: nat)
    requires ArePings(pings) && pings != [] && |pings| == 3 * q + r + 1 && r < 3
    requires |s| == q + (if r == 0 then 0 else 1)
    requires forall j :: 0 <= j < |s| ==> s[j] == LeftOf(pings[..|pings| - 1][3 * j])
    requires t == if r == 0 then s + [LeftOf(pings[3 * q])] else s
    ensures |t| == q + 1 && forall j :: 0 <= j < |t| ==> t[j] == LeftOf(pings[3 * j])
  {
  }

  lemma MiddleGrows(s: seq<seq<int>>, t: seq<seq<int>>, pings: seq<seq<real>>, q: nat, r: nat)
    requires ArePings(pings) && pings != [] && |pings| == 3 * q + r + 1 && r < 3
    requires |s| == q + (if r <= 1 then 0 else 1)
    requires forall j :: 0 <= j < |s| ==>
               var ping := pings[..|pings| - 1][3 * j + 1];
               s[j] == if j % 2 == 0 then RightOf(ping) else LeftOf(ping)
    requires t == if r == 1 then s + [if q % 2 == 0 then RightOf(pings[3 * q + 1]) else LeftOf(pings[3 * q + 1])] else s
    ensures |t| == q + (if r == 0 then 0 else 1)
    ensures forall j :: 0 <= j < |t| ==>
              t[j] == if j % 2 == 0 then RightOf(pings[3 * j + 1]) else LeftOf(pings[3 * j + 1])
  {
  }

  lemma RightGrows(s: seq<seq<int>>, t: seq<seq<int>>, pings: seq<seq<real>>, q: nat, r: nat)
    requires ArePings(pings) && pings != [] && |pings| == 3 * q + r + 1 && r < 3 && |s| == q
    requires forall j :: 0 <= j < |s| ==> s[j] == RightOf(pings[..|pings| - 1][3 * j + 2])
    requires t == if r == 2 then s + [RightOf(pings[3 * q + 2])] else s
    ensures |t| == q + (if r < 2 then 0 else 1) && forall j :: 0 <= j < |t| ==> t[j] == RightOf(pings[3 * j + 2])
  {
  }

  lemma CommandAt(n: nat, q: nat, r: nat)
    requires n == 3 * q + r && r < 3
    ensures COMMANDS[n % 6]
            == if r == 0 then TLRL else if r == 2 then TRRR else if q % 2 == 0 then TLRR else TRRL
  {
    var h := q / 2;
    assert q == 2 * h + q % 2;
    assert n % 6 == n - 6 * h;
  }

  function Concat(parts: seq<seq<int>>): seq<int> {
    if parts == [] then [] else parts[0] + Concat(parts[1..])
  }

  function LastOf(parts: seq<seq<int>>): seq<seq<int>> {
    if |parts| <= WINDOW_SIZE then parts else parts[|parts| - WINDOW_SIZE..]
  }

  /** A window holds its last contributions, four at most. */
  function Window(parts: seq<seq<int>>): seq<int> {
    Concat(LastOf(parts))
  }

  /** Their sizes. */
  function Drops(parts: seq<seq<int>>): seq<nat> {
    var last := LastOf(parts);
    seq(|last|, i requires 0 <= i < |last| => |last[i]|)
  }

  // ---------------------------------------------------------------- rolling

  lemma {:induction false} ConcatAppended(parts: seq<seq<int>>, x: seq<int>)
    ensures Concat(parts + [x]) == Concat(parts) + x
  {
    if parts == [] {
      assert ([] + [x])[1..] == [];
    } else {
      ConcatAppended(parts[1..], x);
      assert (parts + [x])[1..] == parts[1..] + [x];
    }
  }

  /** Appending readings to a window, and taking its oldest contribution out when it has more than four. */
  function Rolling(window: seq<int>, drops: seq<nat>, x: seq<int>): (seq<int>, seq<nat>)
    requires drops != [] ==> drops[0] <= |window|
  {
    if |drops| < WINDOW_SIZE then (window + x, drops + [|x|])
    else ((window + x)[drops[0]..], (drops + [|x|])[1..])
  }

  /** The drop list is what it takes to roll the window. */
  lemma Rolled(parts: seq<seq<int>>, x: seq<int>)
    ensures |Drops(parts)| <= WINDOW_SIZE && (Drops(parts) != [] ==> Drops(parts)[0] <= |Window(parts)|)
    ensures (Window(parts + [x]), Drops(parts + [x])) == Rolling(Window(parts), Drops(parts), x)
  {
    var last := LastOf(parts);
    ConcatAppended(last, x);
    if |parts| < WINDOW_SIZE {
      RolledShort(parts, x);
    } else {
      RolledFull(parts, x);
    }
  }

  lemma RolledShort(parts: seq<seq<int>>, x: seq<int>)
    requires |parts| < WINDOW_SIZE
    ensures Window(parts + [x]) == Window(parts) + x && Drops(parts + [x]) == Drops(parts) + [|x|]
  {
    assert LastOf(parts + [x]) == parts + [x];
    ConcatAppended(parts, x);
  }

  lemma RolledFull(parts: seq<seq<int>>, x: seq<int>)
    requires |parts| >= WINDOW_SIZE
    ensures Window(parts + [x]) == (Window(parts) + x)[|LastOf(parts)[0]|..]
    ensures Drops(parts + [x]) == (Drops(parts) + [|x|])[1..]
  {
    var last := LastOf(parts);
    assert LastOf(parts + [x]) == last[1..] + [x];
    ConcatAppended(last[1..], x);
    assert (Concat(last) + x)[|last[0]|..] == Concat(last[1..]) + x;
  }

  lemma TurnOf(n: nat, rounds: nat, c: nat)
    requires n == 6 * rounds + c && c < 6
    ensures n % 6 == c
  {
  }

  /** Whether a call of `update`, counted from one, processes its readings: every tenth after the first. */
  predicate PingAt(calls: nat) {
    calls > 1 && (calls - 1) % CYCLES_PER_PING == 0
  }

  lemma CycleOf(calls: nat, pings: nat, cycle: nat)
    requires calls - 1 == CYCLES_PER_PING * pings + cycle && 0 < cycle <= CYCLES_PER_PING
    ensures PingAt(calls) <==> cycle == CYCLES_PER_PING
  {
  }

  // ---------------------------------------------------------------- the recorder

  class SonarRecorder {
    var firstCall: bool
    var commandCounter: nat
    var cycleCounter: nat
    var sonarWindow: seq<seq<int>>
    var leftDrop: seq<nat>
    var middleDrop: seq<nat>
    var rightDrop: seq<nat>
    ghost var calls: nat                  // of update
    ghost var pings: seq<seq<real>>       // the readings that were processed
    ghost var parts: Parts                // what they contributed
    ghost var rounds: nat                 // how often all commands have had their turn

    /** The windows and drop lists hold the given contributions. */
    ghost predicate Windows(p: Parts)
      reads `sonarWindow, `leftDrop, `middleDrop, `rightDrop
    {
      && sonarWindow == [Window(p.left), Window(p.middle), Window(p.right)]
      && leftDrop == Drops(p.left) && middleDrop == Drops(p.middle) && rightDrop == Drops(p.right)
    }

    /** Every window in order, and the command that is due. */
    ghost predicate Recorded()
      reads `pings, `parts, `rounds, `commandCounter, `sonarWindow, `leftDrop, `middleDrop, `rightDrop
    {
      && ArePings(pings) && PartsOf(parts, pings) && Windows(parts)
      && |pings| == 6 * rounds + commandCounter && commandCounter < 6
    }

    /** A ping every ten calls after the first, with the commands in turn; every window in order. */
    ghost predicate Valid()
      reads this
    {
      && Recorded()
      && (firstCall <==> calls == 0)
      && (calls == 0 ==> cycleCounter == 0 && pings == [])
      && (calls > 0 ==> calls - 1 == CYCLES_PER_PING * |pings| + cycleCounter && cycleCounter < CYCLES_PER_PING)
    }

    constructor ()
      ensures Valid() && calls == 0
    {
      commandCounter, cycleCounter, firstCall := 0, 0, true;
      sonarWindow := [[], [], []];
      leftDrop, middleDrop, rightDrop := [], [], [];
      calls, pings, parts, rounds := 0, [], Parts([], [], []), 0;
    }

    /** The next request for the sonar. */
    method Update(sonar: seq<real>) returns (request: real)
      requires Valid() && IsReadings(sonar)
      modifies this
      ensures Valid() && calls == old(calls) + 1
      ensures if PingAt(calls) then pings == old(pings) + [sonar] && request == COMMANDS[|pings| % 6] + RBOTH
              else pings == old(pings) && request == if calls == 1 then COMMANDS[0] else NO_PING
    {
      calls := calls + 1;
      if firstCall {
        firstCall := false;
        return COMMANDS[commandCounter];
      }
      CycleOf(calls, |pings|, cycleCounter + 1);
      cycleCounter := cycleCounter + 1;
      if cycleCounter == CYCLES_PER_PING {
        cycleCounter := 0;
        request := ProcessUpdate(sonar);
        request := request + RBOTH;
      } else {
        return NO_PING;
      }
    }

    method ProcessUpdate(sonar: seq<real>) returns (command: real)
      requires Recorded() && IsReadings(sonar)
      modifies `commandCounter, `sonarWindow, `leftDrop, `middleDrop, `rightDrop, `pings, `parts, `rounds
      ensures Recorded() && pings == old(pings) + [sonar] && command == COMMANDS[|pings| % 6]
    {
      command := COMMANDS[commandCounter];
      Record(command, sonar);
      if commandCounter == |COMMANDS| - 1 {
        commandCounter := 0;
        rounds := rounds + 1;
      } else {
        commandCounter := commandCounter + 1;
      }
      TurnOf(|pings|, rounds, commandCounter);
      command := COMMANDS[commandCounter];
    }

    method Record(command: real, sonar: seq<real>)
      requires Recorded() && command == COMMANDS[commandCounter] && IsReadings(sonar)
      modifies `sonarWindow, `leftDrop, `middleDrop, `rightDrop, `pings, `parts
      ensures ArePings(pings) && PartsOf(parts, pings) && Windows(parts) && pings == old(pings) + [sonar]
    {
      TurnOf(|pings|, rounds, commandCounter);
      PartsGrow(parts, pings, sonar);
      UpdateWindow(command, sonar, parts);
      parts, pings := NextParts(parts, command, LeftOf(sonar), RightOf(sonar)), pings + [sonar];
    }

    /** The window that belongs to the command takes the readings of the receiving side. */
    method UpdateWindow(command: real, sonar: seq<real>, ghost p: Parts)
      requires Windows(p) && IsReadings(sonar)
      modifies `sonarWindow, `leftDrop, `middleDrop, `rightDrop
      ensures Windows(NextParts(p, command, LeftOf(sonar), RightOf(sonar)))
    {
      var left := Filter(sonar, 0);
      var right := Filter(sonar, READINGS_PER_SIDE);
      assert sonar[..READINGS_PER_SIDE] == sonar[0..READINGS_PER_SIDE];
      assert sonar[READINGS_PER_SIDE..] == sonar[READINGS_PER_SIDE..2 * READINGS_PER_SIDE];
      Route(command, left, right, p);
    }

    method Route(command: real, left: seq<int>, right: seq<int>, ghost p: Parts)
      requires Windows(p)
      modifies `sonarWindow, `leftDrop, `middleDrop, `rightDrop
      ensures Windows(NextParts(p, command, left, right))
    {
      if command == TLRL {
        leftDrop := Push(LEFT, left, leftDrop, p.left);
      } else if command == TRRR {
        rightDrop := Push(RIGHT, right, rightDrop, p.right);
      } else if command == TRRL {
        middleDrop := Push(MIDDLE, left, middleDrop, p.middle);
      } else if command == TLRR {
        middleDrop := Push(MIDDLE, right, middleDrop, p.middle);
      }
    }

    /** The readings in range of one side. */
    method Filter(sonar: seq<real>, start: nat) returns (kept: seq<int>)
      requires IsReadings(sonar) && start + READINGS_PER_SIDE <= |sonar|
      ensures kept == Filtered(sonar[start..start + READINGS_PER_SIDE])
    {
      kept := [];
      for i := start to start + READINGS_PER_SIDE
        invariant kept == Filtered(sonar[start..i])
      {
        assert sonar[start..i + 1][..i - start] == sonar[start..i];
        if sonar[i] < MAX {
          if sonar[i] <= MIN {
            kept := kept + [(MIN * 1000.0).Floor];
          } else {
            kept := kept + [(sonar[i] * 1000.0).Floor];
          }
        }
      }
    }

    /** Appends to a window, and takes its oldest contribution out when it has more than four. */
    method Push(side: nat, readings: seq<int>, drops: seq<nat>, ghost parts: seq<seq<int>>) returns (drops': seq<nat>)
      requires side < |sonarWindow| && sonarWindow[side] == Window(parts) && drops == Drops(parts)
      modifies `sonarWindow
      ensures sonarWindow == old(sonarWindow)[side := Window(parts + [readings])] && drops' == Drops(parts + [readings])
    {
      Rolled(parts, readings);
      sonarWindow := sonarWindow[side := sonarWindow[side] + readings];
      drops' := drops + [|readings|];
      if |drops'| > WINDOW_SIZE {
        var drop := drops'[0];
        sonarWindow := sonarWindow[side := sonarWindow[side][drop..]];
        drops' := drops'[1..];
      }
    }
  }
}
