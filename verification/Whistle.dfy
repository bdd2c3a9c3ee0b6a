/** The whistle consensus of a team of robots: the game state each robot believes in
    (GameController.cpp), what it hears from its teammates (receiver/Team.cpp) and what it tells them
    (transmitter/Team.cpp), over a network that loses, delays and duplicates messages. */
module Whistle {

  const STATE_INITIAL := 0
  const STATE_READY := 1
  const STATE_SET := 2
  const STATE_PLAYING := 3
  const STATE_FINISHED := 4
  const STATE_INVALID := 5
  const STATE_PENALISED := 6
  const STATE_PENALISED_IN_SET := 7

  const PENALTY_NONE := 0
  const PENALTY_MANUAL := 15

  const TEAM_BLUE := 0
  const MAX_NUM_PLAYERS := 11
  const ROBOTS_PER_TEAM := 6
  const SECS_TILL_INCAPACITATED := 3
  const STRUCT_HEADER := "RGme"
  const STRUCT_VERSION := 10

  datatype TeamInfo = TeamInfo(number: nat, colour: nat, penalties: seq<nat>)

  /** The part of RoboCupGameControlData that decides the game state; blue comes first. */
  datatype GameData = GameData(state: nat, blue: TeamInfo, red: TeamInfo) {
    function Team(isRed: bool): TeamInfo { if isRed then red else blue }

    predicate Complete() {
      |blue.penalties| == |red.penalties| == MAX_NUM_PLAYERS
    }

    predicate Has(number: nat) {
      blue.number == number || red.number == number
    }
  }

  datatype Packet = Packet(header: string, version: nat, data: GameData)

  predicate IsValidData(p: Packet, teamNumber: nat) {
    p.header == STRUCT_HEADER && p.version == STRUCT_VERSION && p.data.Has(teamNumber)
  }

  /** The blackboard entry for one teammate. */
  datatype Heard = Heard(gameState: nat, incapacitated: bool, lastReceived: int)

  /** One robot: its configuration, its game data, the state it publishes, what it has heard. */
  datatype Robot = Robot(
    teamNumber: nat, playerNumber: nat, actOnWhistle: bool,
    data: GameData, teamRed: bool, gameState: nat, heard: seq<Heard>)

  predicate WellFormed(r: Robot) {
    && 1 <= r.playerNumber <= MAX_NUM_PLAYERS
    && r.data.Complete() && r.data.Has(r.teamNumber)
    && |r.heard| == ROBOTS_PER_TEAM
  }

  // ---------------------------------------------------------------- one robot

  function Normalised(d: GameData): GameData {
    if d.blue.colour != TEAM_BLUE then GameData(d.state, d.red, d.blue) else d
  }

  /** `parseData`: a valid packet replaces the data, but PLAYING is not taken back by SET, and a
      penalised robot sees its penalty instead of the game state. */
  function Parsed(r: Robot, p: Packet): (r': Robot)
    requires WellFormed(r) && p.data.Complete()
    ensures WellFormed(r')
  {
    if !IsValidData(p, r.teamNumber) then r else
    var update := Normalised(p.data);
    var state := if update.state == STATE_SET && r.data.state == STATE_PLAYING then STATE_PLAYING else update.state;
    var penalty := update.Team(r.teamRed).penalties[r.playerNumber - 1];
    var shown := if penalty == PENALTY_NONE then state
                 else if state == STATE_SET then STATE_PENALISED_IN_SET else STATE_PENALISED;
    r.(data := update.(state := shown))
  }

  function ParseAll(r: Robot, ps: seq<Packet>): (r': Robot)
    requires WellFormed(r) && forall i :: 0 <= i < |ps| ==> ps[i].data.Complete()
    ensures WellFormed(r')
  {
    if ps == [] then r else Parsed(ParseAll(r, ps[..|ps| - 1]), ps[|ps| - 1])
  }

  function WithPenalty(r: Robot, state: nat, penalty: nat): (r': Robot)
    requires WellFormed(r)
    ensures WellFormed(r')
  {
    var t := r.data.Team(r.teamRed);
    var t' := t.(penalties := t.penalties[r.playerNumber - 1 := penalty]);
    r.(data := if r.teamRed then r.data.(state := state, red := t') else r.data.(state := state, blue := t'))
  }

  /** `buttonUpdate`. */
  function PushButton(r: Robot): (r': Robot)
    requires WellFormed(r)
    ensures WellFormed(r')
  {
    if r.data.state == STATE_INITIAL || r.data.state == STATE_PLAYING
    then WithPenalty(r, STATE_PENALISED, PENALTY_MANUAL)
    else WithPenalty(r, STATE_PLAYING, PENALTY_NONE)
  }

  /** The teammates that are not incapacitated, and those of them that say that they play. */
  function Active(heard: seq<Heard>): set<nat> {
    set i | 0 <= i < |heard| && !heard[i].incapacitated
  }

  function SayPlaying(heard: seq<Heard>): set<nat> {
    set i | 0 <= i < |heard| && !heard[i].incapacitated && heard[i].gameState == STATE_PLAYING
  }

  /** At least 30 percent of the teammates that are active say that the game is on. */
  predicate TeamAgrees(heard: seq<Heard>) {
    |Active(heard)| > 0 && 10 * |SayPlaying(heard)| >= 3 * |Active(heard)|
  }

  /** What the loop over the teammates counts. */
  function Count(heard: seq<Heard>, playing: bool): nat {
    if heard == [] then 0 else
    var n, h := Count(heard[..|heard| - 1], playing), heard[|heard| - 1];
    if !h.incapacitated && (playing ==> h.gameState == STATE_PLAYING) then n + 1 else n
  }

  lemma {:induction false} CountIs(heard: seq<Heard>)
    ensures Count(heard, false) == |Active(heard)| && Count(heard, true) == |SayPlaying(heard)|
  {
    if heard != [] {
      var n := |heard| - 1;
      CountIs(heard[..n]);
      var a, p := Active(heard[..n]), SayPlaying(heard[..n]);
      assert Active(heard) == if heard[n].incapacitated then a else a + {n};
      assert SayPlaying(heard) == if heard[n].incapacitated || heard[n].gameState != STATE_PLAYING then p else p + {n};
    }
  }

  /** One teammate is enough when at most three are active; otherwise it takes two. */
  lemma AgreementThreshold(heard: seq<Heard>)
    requires |heard| <= ROBOTS_PER_TEAM
    ensures TeamAgrees(heard) <==> |SayPlaying(heard)| >= (if |Active(heard)| <= 3 then 1 else 2)
  {
    AtMost(Active(heard), |heard|);
    Subset(SayPlaying(heard), Active(heard));
  }

  lemma {:induction false} AtMost(s: set<nat>, n: nat)
    requires forall i :: i in s ==> i < n
    ensures |s| <= n
  {
    if n > 0 {
      AtMost(s - {n - 1}, n - 1);
    }
  }

  lemma Subset(s: set<nat>, t: set<nat>)
    requires s <= t
    ensures |s| <= |t|
  {
    assert t == s + (t - s);
  }

  /** When four or more are active, two different ones must have said that they play. */
  lemma TwoAgree(heard: seq<Heard>) returns (i: nat, j: nat)
    requires TeamAgrees(heard) && |heard| <= ROBOTS_PER_TEAM && |Active(heard)| >= 4
    ensures i < j && i in SayPlaying(heard) && j in SayPlaying(heard)
  {
    AgreementThreshold(heard);
    var s := SayPlaying(heard);
    i :| i in s;
    assert |s - {i}| >= 1;
    j :| j in s - {i};
    if j < i {
      i, j := j, i;
    }
  }

  /** What a tick gets from outside: the packets that arrived, the button, a whistle in the last
      three seconds, and whether the robot is near the centre circle. */
  datatype Inputs = Inputs(packets: seq<Packet>, button: bool, whistle: bool, near: bool)

  predicate ValidInputs(x: Inputs) {
    forall i :: 0 <= i < |x.packets| ==> x.packets[i].data.Complete()
  }

  /** The robot after packets and button, before the whistle is considered. */
  function Updated(r: Robot, x: Inputs): (r': Robot)
    requires WellFormed(r) && ValidInputs(x)
    ensures WellFormed(r')
  {
    var r1 := ParseAll(r, x.packets);
    var r2 := if x.button then PushButton(r1) else r1;
    r2.(teamRed := r2.data.blue.number != r2.teamNumber)
  }

  /** The opinion on the game state: PLAYING sticks while the official state is SET, and in SET a
      whistle means PLAYING. */
  function Opinion(r: Robot, previous: nat, whistle: bool): nat {
    if r.data.state == STATE_SET && (previous == STATE_PLAYING || (whistle && r.actOnWhistle)) then STATE_PLAYING
    else r.data.state
  }

  /** `our_team` is the robot's own team. */
  predicate KnowsTeam(r: Robot) {
    r.data.Team(r.teamRed).number == r.teamNumber
  }

  /** What is published is the official state, or PLAYING while that is SET. */
  predicate Coherent(r: Robot) {
    r.gameState == r.data.state || (r.gameState == STATE_PLAYING && r.data.state == STATE_SET)
  }

  /** The part of `tick` after packets and button: the whistle, and the opinion of the team. */
  function Whistled(u: Robot, previous: nat, x: Inputs): Robot {
    var opinion := Opinion(u, previous, x.whistle);
    var state := if u.data.state == STATE_SET && TeamAgrees(u.heard) && x.near && u.actOnWhistle then STATE_PLAYING
                 else u.data.state;
    u.(data := u.data.(state := state),
       gameState := if opinion == STATE_PLAYING && state == STATE_SET then STATE_PLAYING else state)
  }

  /** `tick`. */
  function Ticked(r: Robot, x: Inputs): (r': Robot)
    requires WellFormed(r) && ValidInputs(x)
    ensures WellFormed(r') && Coherent(r') && KnowsTeam(r')
  {
    Whistled(Updated(r, x), r.gameState, x)
  }

  // ---------------------------------------------------------------- messages

  /** A broadcast; `resting` says that the sender's action makes it incapacitated. */
  datatype Message = Message(playerNum: nat, teamNum: nat, gameState: nat, resting: bool)

  function Broadcast(r: Robot, resting: bool): Message {
    Message(r.playerNumber, r.teamNumber, r.gameState, resting)
  }

  /** `naoHandler`. */
  function Receive(r: Robot, m: Message, now: int): (r': Robot)
    requires WellFormed(r)
    ensures WellFormed(r')
  {
    if 1 <= m.playerNum <= ROBOTS_PER_TEAM && m.teamNum == r.teamNumber then
      var penalised := r.data.Team(r.teamRed).penalties[m.playerNum - 1] != PENALTY_NONE;
      r.(heard := r.heard[m.playerNum - 1 := Heard(m.gameState, penalised || m.resting, now)])
    else r
  }

  function TimedOut(h: Heard, now: int): Heard {
    if now - h.lastReceived > SECS_TILL_INCAPACITATED then h.(incapacitated := true) else h
  }

  /** The receiver's `tick`: who has been silent too long is incapacitated. */
  function CheckSilence(r: Robot, now: int): (r': Robot)
    requires WellFormed(r)
    ensures WellFormed(r')
  {
    r.(heard := seq(|r.heard|, i requires 0 <= i < |r.heard| => TimedOut(r.heard[i], now)))
  }

  // ---------------------------------------------------------------- what starts the game

  predicate SaysPlaying(r: Robot, ps: seq<Packet>) {
    exists i :: 0 <= i < |ps| && IsValidData(ps[i], r.teamNumber) && ps[i].data.state == STATE_PLAYING
  }

  /** A controller packet that says PLAYING. */
  predicate ToldToPlay(r: Robot, x: Inputs) {
    SaysPlaying(r, x.packets)
  }

  /** A button press that switches to PLAYING. */
  predicate PushedToPlay(r: Robot, x: Inputs)
    requires WellFormed(r) && ValidInputs(x)
  {
    var s := ParseAll(r, x.packets).data.state;
    x.button && s != STATE_INITIAL && s != STATE_PLAYING
  }

  /** A whistle heard in SET, with acting on whistles enabled. */
  predicate WhistledToPlay(r: Robot, x: Inputs)
    requires WellFormed(r) && ValidInputs(x)
  {
    x.whistle && r.actOnWhistle && Updated(r, x).data.state == STATE_SET
  }

  predicate Cause(r: Robot, x: Inputs)
    requires WellFormed(r) && ValidInputs(x)
  {
    ToldToPlay(r, x) || PushedToPlay(r, x) || WhistledToPlay(r, x)
  }

  /** Neither the robot nor anybody it has heard is in PLAYING. */
  predicate Quiet(r: Robot) {
    && r.data.state != STATE_PLAYING && r.gameState != STATE_PLAYING
    && forall i :: 0 <= i < |r.heard| ==> r.heard[i].gameState != STATE_PLAYING
  }

  lemma {:induction false} ParseAllFrame(r: Robot, ps: seq<Packet>)
    requires WellFormed(r) && forall i :: 0 <= i < |ps| ==> ps[i].data.Complete()
    ensures var r' := ParseAll(r, ps);
            && r'.heard == r.heard && r'.gameState == r.gameState && r'.actOnWhistle == r.actOnWhistle
            && r'.teamNumber == r.teamNumber && r'.playerNumber == r.playerNumber && r'.teamRed == r.teamRed
    ensures r.data.state != STATE_PLAYING && !SaysPlaying(r, ps) ==> ParseAll(r, ps).data.state != STATE_PLAYING
  {
    if ps != [] {
      var n := |ps| - 1;
      ParseAllFrame(r, ps[..n]);
      assert forall i :: 0 <= i < n ==> ps[..n][i] == ps[i];
    }
  }

  /** Without a cause a quiet robot stays quiet. */
  lemma TickStaysQuiet(r: Robot, x: Inputs)
    requires WellFormed(r) && ValidInputs(x) && Quiet(r) && !Cause(r, x)
    ensures Quiet(Ticked(r, x))
  {
    ParseAllFrame(r, x.packets);
    assert SayPlaying(r.heard) == {};
  }

  /** A robot enters PLAYING officially only on a packet or its button, or in SET, near the centre
      circle and acting on whistles, when the team agrees. */
  lemma OfficialPlaying(r: Robot, x: Inputs)
    requires WellFormed(r) && ValidInputs(x) && r.data.state != STATE_PLAYING
    ensures Ticked(r, x).data.state == STATE_PLAYING ==>
              || ToldToPlay(r, x) || PushedToPlay(r, x)
              || (Updated(r, x).data.state == STATE_SET && x.near && r.actOnWhistle && TeamAgrees(r.heard))
  {
    ParseAllFrame(r, x.packets);
  }

  // ---------------------------------------------------------------- penalties

  predicate ShowsPenalty(state: nat) {
    state == STATE_PENALISED || state == STATE_PENALISED_IN_SET
  }

  /** The penalty that a packet gives to a player of a team; if both teams have its number, to the
      player of the blue one. */
  function PenaltyFor(d: GameData, teamNumber: nat, playerNumber: nat): nat
    requires d.Complete() && 1 <= playerNumber <= MAX_NUM_PLAYERS
  {
    if d.blue.number == teamNumber && (d.red.number == teamNumber ==> d.blue.colour == TEAM_BLUE)
    then d.blue.penalties[playerNumber - 1] else d.red.penalties[playerNumber - 1]
  }

  /** The packet penalises the robot. */
  predicate Penalises(r: Robot, d: GameData)
    requires WellFormed(r) && d.Complete()
  {
    PenaltyFor(d, r.teamNumber, r.playerNumber) != PENALTY_NONE
  }

  /** `parseData` looks the penalty up by the colour the robot had in the tick before.  That is the right
      penalty if the packet gives the team this colour, or if it penalises both players of the robot's
      number, or neither. */
  predicate ReadRight(r: Robot, d: GameData)
    requires WellFormed(r) && d.Complete()
  {
    || r.teamRed == (Normalised(d).blue.number != r.teamNumber)
    || (d.blue.penalties[r.playerNumber - 1] == PENALTY_NONE <==> d.red.penalties[r.playerNumber - 1] == PENALTY_NONE)
  }

  /** A valid packet shows a robot as penalised exactly when it penalises the robot, if and only if the
      right penalty is read, or, for a packet whose own state is one of the two that show a penalty, if
      it does penalise the robot. */
  lemma PenaltyShown(r: Robot, p: Packet)
    requires WellFormed(r) && p.data.Complete() && IsValidData(p, r.teamNumber)
    ensures (ShowsPenalty(Parsed(r, p).data.state) <==> Penalises(r, p.data))
            <==> if ShowsPenalty(p.data.state) then Penalises(r, p.data) else ReadRight(r, p.data)
  {
  }

  /** Every valid packet says SET and does not penalise the robot. */
  predicate SaySet(r: Robot, ps: seq<Packet>)
    requires WellFormed(r)
  {
    forall i :: 0 <= i < |ps| ==>
      ps[i].data.Complete()
      && (IsValidData(ps[i], r.teamNumber) ==> ps[i].data.state == STATE_SET && !Penalises(r, ps[i].data))
  }

  predicate AllReadRight(r: Robot, ps: seq<Packet>)
    requires WellFormed(r) && forall i :: 0 <= i < |ps| ==> ps[i].data.Complete()
  {
    forall i :: 0 <= i < |ps| && IsValidData(ps[i], r.teamNumber) ==> ReadRight(r, ps[i].data)
  }

  /** The last valid packet, if there is one, is read right. */
  predicate LastReadRight(r: Robot, ps: seq<Packet>)
    requires WellFormed(r) && forall i :: 0 <= i < |ps| ==> ps[i].data.Complete()
  {
    if ps == [] then true else
    var n := |ps| - 1;
    if IsValidData(ps[n], r.teamNumber) then ReadRight(r, ps[n].data) else LastReadRight(r, ps[..n])
  }

  /** While only packets arrive that say SET and do not penalise it, and no button is pushed, a robot
      stays in PLAYING exactly if all of them are read right, or the last one is and the team puts
      the robot back into PLAYING in the same tick. */
  lemma PlayingSticks(r: Robot, x: Inputs)
    requires WellFormed(r) && ValidInputs(x) && !x.button && r.data.state == STATE_PLAYING && SaySet(r, x.packets)
    ensures Ticked(r, x).data.state == STATE_PLAYING
            <==> || AllReadRight(r, x.packets)
                 || (LastReadRight(r, x.packets) && TeamAgrees(r.heard) && x.near && r.actOnWhistle)
    ensures Ticked(r, x).data.state == STATE_PLAYING ==> Ticked(r, x).gameState == STATE_PLAYING
  {
    ParseAllSticks(r, x.packets);
    ParseAllFrame(r, x.packets);
  }

  /** What is left of PLAYING after packets that say SET. */
  predicate Sticks(r: Robot, ps: seq<Packet>, s: nat)
    requires WellFormed(r) && forall i :: 0 <= i < |ps| ==> ps[i].data.Complete()
  {
    if AllReadRight(r, ps) then s == STATE_PLAYING && LastReadRight(r, ps)
    else if LastReadRight(r, ps) then s == STATE_SET else ShowsPenalty(s)
  }

  lemma {:induction false} ParseAllSticks(r: Robot, ps: seq<Packet>)
    requires WellFormed(r) && r.data.state == STATE_PLAYING && SaySet(r, ps)
    ensures Sticks(r, ps, ParseAll(r, ps).data.state)
  {
    if ps != [] {
      var init, p := ps[..|ps| - 1], ps[|ps| - 1];
      assert ps == init + [p];
      SaySetInit(r, init, p);
      ParseAllSticks(r, init);
      ParseAllFrame(r, init);
      ParsedSticks(r, ParseAll(r, init), init, p);
    }
  }

  lemma SaySetInit(r: Robot, ps: seq<Packet>, p: Packet)
    requires WellFormed(r) && SaySet(r, ps + [p])
    ensures SaySet(r, ps) && p.data.Complete()
  {
    assert forall i :: 0 <= i < |ps| ==> (ps + [p])[i] == ps[i];
    assert (ps + [p])[|ps|] == p;
  }

  /** One more packet for a robot u that has parsed ps. */
  lemma ParsedSticks(r: Robot, u: Robot, ps: seq<Packet>, p: Packet)
    requires WellFormed(r) && WellFormed(u) && SaySet(r, ps) && Sticks(r, ps, u.data.state)
    requires p.data.Complete() && SaySet(r, ps + [p])
    requires u.playerNumber == r.playerNumber && u.teamNumber == r.teamNumber && u.teamRed == r.teamRed
    ensures Sticks(r, ps + [p], Parsed(u, p).data.state)
  {
    assert (ps + [p])[..|ps|] == ps && (ps + [p])[|ps|] == p;
    ReadRightSplits(r, ps, p);
    if IsValidData(p, r.teamNumber) {
      OneSticks(r, u, p);
    }
  }

  lemma ReadRightSplits(r: Robot, ps: seq<Packet>, p: Packet)
    requires WellFormed(r) && p.data.Complete() && forall i :: 0 <= i < |ps| ==> ps[i].data.Complete()
    ensures AllReadRight(r, ps + [p])
            <==> AllReadRight(r, ps) && (IsValidData(p, r.teamNumber) ==> ReadRight(r, p.data))
  {
    assert forall i :: 0 <= i < |ps| ==> (ps + [p])[i] == ps[i];
    assert (ps + [p])[|ps|] == p;
  }

  lemma OneSticks(r: Robot, u: Robot, p: Packet)
    requires WellFormed(r) && WellFormed(u) && p.data.Complete() && IsValidData(p, r.teamNumber)
    requires p.data.state == STATE_SET && !Penalises(r, p.data)
    requires u.playerNumber == r.playerNumber && u.teamNumber == r.teamNumber && u.teamRed == r.teamRed
    ensures var s := Parsed(u, p).data.state;
            if !ReadRight(r, p.data) then ShowsPenalty(s)
            else s == if u.data.state == STATE_PLAYING then STATE_PLAYING else STATE_SET
  {
  }

  /** Packet i is the last valid one of the tick. */
  predicate IsLast(r: Robot, ps: seq<Packet>, i: nat) {
    && i < |ps| && IsValidData(ps[i], r.teamNumber)
    && forall j :: i < j < |ps| ==> !IsValidData(ps[j], r.teamNumber)
  }

  /** Something other than packet i, which says SET, makes the robot play: it was in PLAYING before the
      packet, it hears a whistle, or its team agrees. */
  predicate GoesOn(r: Robot, x: Inputs, i: nat)
    requires WellFormed(r) && ValidInputs(x) && i < |x.packets|
  {
    || r.gameState == STATE_PLAYING || ParseAll(r, x.packets[..i]).data.state == STATE_PLAYING
    || (r.actOnWhistle && (x.whistle || (TeamAgrees(r.heard) && x.near)))
  }

  /** A robot that its last valid packet penalises, and whose button is not pushed, is not in PLAYING in
      any sense exactly if the right penalty is read, or the packet says neither PLAYING nor SET, or
      it says SET and nothing else makes the robot play.  If the right one is read, the robot also
      knows whether it serves its penalty in SET. */
  lemma PenalisedNeverPlays(r: Robot, x: Inputs, i: nat)
    requires WellFormed(r) && ValidInputs(x) && !x.button && IsLast(r, x.packets, i) && Penalises(r, x.packets[i].data)
    ensures var t, d := Ticked(r, x), x.packets[i].data;
            && (t.gameState != STATE_PLAYING && t.data.state != STATE_PLAYING
                <==> || ReadRight(r, d) || (d.state != STATE_PLAYING && d.state != STATE_SET)
                     || (d.state == STATE_SET && !GoesOn(r, x, i)))
            && (ReadRight(r, d) ==>
                  (ShowsPenalty(t.data.state) && t.gameState == t.data.state
                   && (d.state != STATE_SET ==> t.data.state == STATE_PENALISED)))
  {
    LastPacketDecides(r, x.packets, i);
    ParseAllFrame(r, x.packets);
    ParseAllFrame(r, x.packets[..i]);
  }

  lemma {:induction false} LastPacketDecides(r: Robot, ps: seq<Packet>, i: nat)
    requires WellFormed(r) && forall j :: 0 <= j < |ps| ==> ps[j].data.Complete()
    requires IsLast(r, ps, i)
    ensures ParseAll(r, ps).data == Parsed(ParseAll(r, ps[..i]), ps[i]).data
  {
    var n := |ps| - 1;
    ParseAllFrame(r, ps[..n]);
    ParseAllFrame(r, ps[..i]);
    assert forall j :: 0 <= j < n ==> ps[..n][j] == ps[j];
    if i < n {
      LastPacketDecides(r, ps[..n], i);
      assert ps[..n][..i] == ps[..i];
    }
  }

  function Lineup(penalty: nat): seq<nat> {
    seq(MAX_NUM_PLAYERS, _ => penalty)
  }

  function Sample(state: nat): Robot {
    Robot(18, 1, true,
          GameData(state, TeamInfo(18, 0, Lineup(PENALTY_NONE)), TeamInfo(7, 1, Lineup(PENALTY_NONE))), false, state,
          seq(ROBOTS_PER_TEAM, _ => Heard(0, true, 0)))
  }

  /** Packets that change the colours are read with the opponent's penalties: one that penalises nobody
      of the robot's team takes it out of PLAYING, and one that penalises all of it lets it play. */
  lemma ColourChangeMisreads() returns (r: Robot, x: Inputs, r': Robot, x': Inputs)
    ensures WellFormed(r) && KnowsTeam(r) && ValidInputs(x) && !x.button && IsLast(r, x.packets, 0)
    ensures r.data.state == STATE_PLAYING && !Penalises(r, x.packets[0].data) && x.packets[0].data.state == STATE_SET
             && Ticked(r, x).data.state == Ticked(r, x).gameState == STATE_PENALISED
    ensures WellFormed(r') && KnowsTeam(r') && ValidInputs(x') && !x'.button && IsLast(r', x'.packets, 0)
    ensures r'.data.state == STATE_INITIAL && Penalises(r', x'.packets[0].data)
             && Ticked(r', x').data.state == Ticked(r', x').gameState == STATE_PLAYING
  {
    var none, all := Lineup(PENALTY_NONE), Lineup(PENALTY_MANUAL);
    r, r' := Sample(STATE_PLAYING), Sample(STATE_INITIAL);
    var d := GameData(STATE_SET, TeamInfo(7, 0, all), TeamInfo(18, 1, none));
    var d' := GameData(STATE_PLAYING, TeamInfo(7, 0, none), TeamInfo(18, 1, all));
    x := Inputs([Packet(STRUCT_HEADER, STRUCT_VERSION, d)], false, false, true);
    x' := Inputs([Packet(STRUCT_HEADER, STRUCT_VERSION, d')], false, false, true);
    OnePacket(r, x.packets[0]);
    OnePacket(r', x'.packets[0]);
  }

  lemma OnePacket(r: Robot, p: Packet)
    requires WellFormed(r) && p.data.Complete()
    ensures ParseAll(r, [p]) == Parsed(r, p)
  {
    assert [p][..0] == [];
    assert ParseAll(r, []) == r;
  }

  // ---------------------------------------------------------------- what a tick takes over

  /** The two teams of a packet, the blue one first. */
  predicate HoldsTeams(d: GameData, packet: GameData) {
    if packet.blue.colour == TEAM_BLUE then d.blue == packet.blue && d.red == packet.red
    else d.blue == packet.red && d.red == packet.blue
  }

  /** A packet with another header or version, or of another game, changes nothing.  Any other packet
      replaces both teams, with all their penalties; the robot sees its penalty, or else the state of
      the packet, except that SET does not take back PLAYING. */
  lemma ParsedTakesOver(r: Robot, p: Packet)
    requires WellFormed(r) && p.data.Complete()
    ensures var u := Parsed(r, p);
            if p.header == "RGme" && p.version == 10 && r.teamNumber in {p.data.blue.number, p.data.red.number} then
              && u == r.(data := u.data) && HoldsTeams(u.data, p.data)
              && (TEAM_BLUE in {p.data.blue.colour, p.data.red.colour} ==> u.data.blue.colour == TEAM_BLUE)
              && var stays := p.data.state == STATE_SET && r.data.state == STATE_PLAYING;
                 u.data.state == if (if r.teamRed then u.data.red else u.data.blue).penalties[r.playerNumber - 1] == 0
                                 then (if stays then STATE_PLAYING else p.data.state)
                                 else if p.data.state == STATE_SET && !stays then STATE_PENALISED_IN_SET
                                 else STATE_PENALISED
            else u == r
  {
  }

  lemma {:induction false} NothingNew(r: Robot, ps: seq<Packet>)
    requires WellFormed(r) && forall i :: 0 <= i < |ps| ==> ps[i].data.Complete()
    requires forall i :: 0 <= i < |ps| ==> !IsValidData(ps[i], r.teamNumber)
    ensures ParseAll(r, ps) == r
  {
    if ps != [] {
      var n := |ps| - 1;
      assert forall i :: 0 <= i < n ==> ps[..n][i] == ps[i];
      NothingNew(r, ps[..n]);
    }
  }

  /** The teams agree but for entry k of the penalties. */
  predicate SameBut(t: TeamInfo, u: TeamInfo, k: int) {
    && t.number == u.number && t.colour == u.colour && |t.penalties| == |u.penalties|
    && forall j :: 0 <= j < |t.penalties| && j != k ==> t.penalties[j] == u.penalties[j]
  }

  /** The button takes a robot that waits or plays out of the game, and any other one into it, and keeps
      the robot's own penalty in step; nothing else changes. */
  lemma ButtonSwitches(r: Robot)
    requires WellFormed(r)
    ensures var u, k := PushButton(r), r.playerNumber - 1;
            && u == r.(data := u.data) && u.data.Team(!r.teamRed) == r.data.Team(!r.teamRed)
            && SameBut(u.data.Team(r.teamRed), r.data.Team(r.teamRed), k)
            && (if r.data.state in {STATE_INITIAL, STATE_PLAYING}
                then u.data.state == STATE_PENALISED && u.data.Team(r.teamRed).penalties[k] == PENALTY_MANUAL
                else u.data.state == STATE_PLAYING && u.data.Team(r.teamRed).penalties[k] == PENALTY_NONE)
    ensures PushButton(PushButton(r)).data.state
            == if r.data.state in {STATE_INITIAL, STATE_PLAYING} then STATE_PLAYING else STATE_PENALISED
  {
  }

  /** After a tick the robot holds the teams of the last valid packet, or else those it had; the button
      changes nothing of them but the robot's own penalty. */
  lemma TickTakesOver(r: Robot, x: Inputs)
    requires WellFormed(r) && ValidInputs(x)
    ensures var d := Ticked(r, x).data;
            && (forall i: nat :: IsLast(r, x.packets, i) ==>
                  exists e: GameData :: HoldsTeams(e, x.packets[i].data) && AfterButton(r, x, e, d))
            && ((forall i :: 0 <= i < |x.packets| ==> !IsValidData(x.packets[i], r.teamNumber)) ==>
                  AfterButton(r, x, r.data, d))
  {
    var u := ParseAll(r, x.packets);
    ParseAllFrame(r, x.packets);
    ButtonSwitches(u);
    forall i: nat | IsLast(r, x.packets, i)
      ensures exists e: GameData :: HoldsTeams(e, x.packets[i].data) && AfterButton(r, x, e, Ticked(r, x).data)
    {
      LastPacketDecides(r, x.packets, i);
      ParseAllFrame(r, x.packets[..i]);
      assert HoldsTeams(u.data, x.packets[i].data) && AfterButton(r, x, u.data, Ticked(r, x).data);
    }
    if forall i :: 0 <= i < |x.packets| ==> !IsValidData(x.packets[i], r.teamNumber) {
      NothingNew(r, x.packets);
    }
  }

  /** The teams of d are those of e, but for the robot's own penalty if its button was pushed. */
  predicate AfterButton(r: Robot, x: Inputs, e: GameData, d: GameData) {
    if !x.button then d.blue == e.blue && d.red == e.red
    else d.Team(!r.teamRed) == e.Team(!r.teamRed) && SameBut(d.Team(r.teamRed), e.Team(r.teamRed), r.playerNumber - 1)
  }

  // ---------------------------------------------------------------- who counts

  /** Right after a tick that took over packet i, a message of a teammate makes that teammate active
      exactly when the packet does not penalise it, whatever the colours were before, and it is not
      resting.  The robot's own entry is left to its button. */
  lemma PenalisedDoNotCount(r: Robot, x: Inputs, i: nat, m: Message, now: int)
    requires WellFormed(r) && ValidInputs(x) && IsLast(r, x.packets, i)
    requires 1 <= m.playerNum <= ROBOTS_PER_TEAM && m.teamNum == r.teamNumber
    requires x.button ==> m.playerNum != r.playerNumber
    ensures var h, k := Receive(Ticked(r, x), m, now).heard, m.playerNum - 1;
            && h[k].gameState == m.gameState && h[k].lastReceived == now
            && (k in Active(h) <==> PenaltyFor(x.packets[i].data, r.teamNumber, m.playerNum) == 0 && !m.resting)
            && forall j :: 0 <= j < |h| && j != k ==> h[j] == r.heard[j]
  {
    TickTakesOver(r, x);
    TickFrame(r, x);
    var p, d := x.packets[i].data, Ticked(r, x).data;
    var e: GameData :| HoldsTeams(e, p) && AfterButton(r, x, e, d);
    PenaltyDecides(r, x, e, Ticked(r, x), p, m, now);
  }

  lemma TickFrame(r: Robot, x: Inputs)
    requires WellFormed(r) && ValidInputs(x)
    ensures var t := Ticked(r, x);
            && t.heard == r.heard && t.teamNumber == r.teamNumber && t.playerNumber == r.playerNumber
            && t.teamRed == (t.data.blue.number != t.teamNumber)
  {
    ParseAllFrame(r, x.packets);
  }

  lemma PenaltyDecides(r: Robot, x: Inputs, e: GameData, t: Robot, p: GameData, m: Message, now: int)
    requires WellFormed(t) && HoldsTeams(e, p) && AfterButton(r, x, e, t.data) && p.Complete() && p.Has(r.teamNumber)
    requires t.teamNumber == r.teamNumber && t.teamRed == (t.data.blue.number != t.teamNumber)
    requires 1 <= m.playerNum <= ROBOTS_PER_TEAM && m.teamNum == r.teamNumber
    requires x.button ==> m.playerNum != r.playerNumber
    ensures var h, k := Receive(t, m, now).heard, m.playerNum - 1;
            && h == t.heard[k := h[k]] && h[k].gameState == m.gameState && h[k].lastReceived == now
            && (k in Active(h) <==> PenaltyFor(p, r.teamNumber, m.playerNum) == PENALTY_NONE && !m.resting)
  {
    PenaltyKept(r, x, e, t.data, p, m.playerNum);
    Stored(t, m, now);
  }

  lemma PenaltyKept(r: Robot, x: Inputs, e: GameData, d: GameData, p: GameData, playerNumber: nat)
    requires HoldsTeams(e, p) && AfterButton(r, x, e, d) && p.Complete() && d.Complete() && p.Has(r.teamNumber)
    requires 1 <= playerNumber <= MAX_NUM_PLAYERS && (x.button ==> playerNumber != r.playerNumber)
    ensures d.Team(d.blue.number != r.teamNumber).penalties[playerNumber - 1]
            == PenaltyFor(p, r.teamNumber, playerNumber)
  {
    assert d.blue.number == e.blue.number && d.red.number == e.red.number;
  }

  lemma Stored(t: Robot, m: Message, now: int)
    requires WellFormed(t) && 1 <= m.playerNum <= ROBOTS_PER_TEAM && m.teamNum == t.teamNumber
    ensures var h, k := Receive(t, m, now).heard, m.playerNum - 1;
            && h == t.heard[k := h[k]] && h[k].gameState == m.gameState && h[k].lastReceived == now
            && (k in Active(h) <==> t.data.Team(t.teamRed).penalties[k] == PENALTY_NONE && !m.resting)
  {
  }

  /** Messages of other teams, or of players a team does not have, are not stored. */
  lemma OthersIgnored(r: Robot, m: Message, now: int)
    requires WellFormed(r) && (m.teamNum != r.teamNumber || m.playerNum == 0 || m.playerNum > 6)
    ensures Receive(r, m, now) == r
  {
  }

  /** A teammate is active after the silence check exactly when it was before and its last message is at
      most three seconds old; what it said is kept. */
  lemma SilentDoNotCount(r: Robot, now: int)
    requires WellFormed(r)
    ensures var h := CheckSilence(r, now).heard;
            && CheckSilence(r, now) == r.(heard := h) && |h| == |r.heard|
            && Active(h) == (set i | i in Active(r.heard) && now - r.heard[i].lastReceived <= 3)
            && SayPlaying(h) == Active(h) * SayPlaying(r.heard)
            && forall i :: 0 <= i < |h| ==>
                 h[i].gameState == r.heard[i].gameState && h[i].lastReceived == r.heard[i].lastReceived
  {
  }

  /** Consensus: a robot in SET ends its tick in PLAYING exactly when it is near the centre circle, acts on
      whistles, and at least 30 percent of its active teammates say PLAYING; it tells its team so
      already when it hears a whistle it acts on, or told so before. */
  lemma ConsensusPlays(r: Robot, x: Inputs)
    requires WellFormed(r) && ValidInputs(x) && Updated(r, x).data.state == STATE_SET
    ensures var t, active, playing := Ticked(r, x), |Active(r.heard)|, |SayPlaying(r.heard)|;
            && (t.data.state == STATE_PLAYING
                <==> x.near && r.actOnWhistle && active > 0 && 100 * playing >= 30 * active)
            && (t.data.state != STATE_PLAYING ==> t.data.state == STATE_SET)
            && (t.gameState == STATE_PLAYING
                <==> || t.data.state == STATE_PLAYING || r.gameState == STATE_PLAYING
                     || (x.whistle && r.actOnWhistle))
  {
    ParseAllFrame(r, x.packets);
  }

  /** Pushed or whistled into PLAYING, a robot publishes it in the same tick. */
  lemma CausesWork(r: Robot, x: Inputs)
    requires WellFormed(r) && ValidInputs(x) && (PushedToPlay(r, x) || WhistledToPlay(r, x))
    ensures Ticked(r, x).gameState == STATE_PLAYING
  {
    ParseAllFrame(r, x.packets);
  }

  /** Right after the silent ones have been marked, the team agrees only if some teammate that was not
      incapacitated has said within the last three seconds that it plays. */
  lemma AgreementIsFresh(r: Robot, now: int) returns (i: nat)
    requires WellFormed(r) && TeamAgrees(CheckSilence(r, now).heard)
    ensures i < |r.heard| && r.heard[i].gameState == STATE_PLAYING && !r.heard[i].incapacitated
    ensures now - r.heard[i].lastReceived <= SECS_TILL_INCAPACITATED
  {
    AgreementThreshold(CheckSilence(r, now).heard);
    i :| i in SayPlaying(CheckSilence(r, now).heard);
  }

  // ---------------------------------------------------------------- the team

  /** The robots of a team, and every message ever sent: any of them may arrive at any robot at any
      time, any number of times, or never. */
  datatype Team = Team(robots: seq<Robot>, sent: set<Message>)

  datatype Action =
    | DoTick(r: nat, x: Inputs)
    | DoTransmit(r: nat, resting: bool)
    | DoReceive(r: nat, m: Message, now: int)
    | DoCheckSilence(r: nat, now: int)

  predicate TeamWellFormed(t: Team) {
    forall i :: 0 <= i < |t.robots| ==> WellFormed(t.robots[i])
  }

  predicate Possible(t: Team, a: Action) {
    && a.r < |t.robots|
    && (a.DoTick? ==> ValidInputs(a.x))
    && (a.DoReceive? ==> a.m in t.sent)
  }

  function Do(t: Team, a: Action): (t': Team)
    requires TeamWellFormed(t) && Possible(t, a)
    ensures TeamWellFormed(t') && |t'.robots| == |t.robots|
  {
    var r := t.robots[a.r];
    match a
    case DoTick(_, x) => t.(robots := t.robots[a.r := Ticked(r, x)])
    case DoTransmit(_, resting) => t.(sent := t.sent + {Broadcast(r, resting)})
    case DoReceive(_, m, now) => t.(robots := t.robots[a.r := Receive(r, m, now)])
    case DoCheckSilence(_, now) => t.(robots := t.robots[a.r := CheckSilence(r, now)])
  }

  /** A step concerns one robot: a tick, a message to it, or its silence check; or it adds its broadcast to
      what may arrive. */
  lemma StepsAreLocal(t: Team, a: Action)
    requires TeamWellFormed(t) && Possible(t, a)
    ensures var u, r := Do(t, a), t.robots[a.r];
            && u.robots == t.robots[a.r := u.robots[a.r]]
            && (u.sent == if a.DoTransmit? then t.sent + {Broadcast(r, a.resting)} else t.sent)
            && (a.DoTransmit? ==> u.robots == t.robots)
            && (!a.DoTick? ==> u.robots[a.r].data == r.data && u.robots[a.r].gameState == r.gameState)
            && (a.DoTick? ==> u.robots[a.r].heard == r.heard)
            && (a.DoCheckSilence? ==>
                  Active(u.robots[a.r].heard)
                  == (set i | i in Active(r.heard) && a.now - r.heard[i].lastReceived <= SECS_TILL_INCAPACITATED))
  {
    if a.DoTick? {
      TickFrame(t.robots[a.r], a.x);
    } else if a.DoCheckSilence? {
      SilentDoNotCount(t.robots[a.r], a.now);
    }
  }

  /** How the news travels: robot a, which plays, tells its team, robot b hears it and ticks in SET without
      other news.  Then b plays exactly if those it knew to say PLAYING are, with a, 30 percent of those
      it knew to be active, with a; up to three of these always suffice.  Nobody else is touched. */
  lemma WhistleSpreads(t: Team, a: nat, b: nat, now: int, x: Inputs)
    requires TeamWellFormed(t) && a < |t.robots| && b < |t.robots| && x == Inputs([], false, x.whistle, true)
    requires var s, r := t.robots[a], t.robots[b];
             && s.teamNumber == r.teamNumber && s.playerNumber <= ROBOTS_PER_TEAM && s.gameState == STATE_PLAYING
             && r.data.Team(r.teamRed).penalties[s.playerNumber - 1] == PENALTY_NONE
             && r.data.state == STATE_SET && r.actOnWhistle
    ensures var s, r := t.robots[a], t.robots[b];
            var active, playing := Active(r.heard) + {s.playerNumber - 1}, SayPlaying(r.heard) + {s.playerNumber - 1};
            var told := Do(t, DoTransmit(a, false));
            var heard := Do(told, DoReceive(b, Broadcast(s, false), now));
            var u := Do(heard, DoTick(b, x)).robots[b];
            && Do(heard, DoTick(b, x)).robots == t.robots[b := u]
            && (u.data.state == STATE_PLAYING <==> 10 * |playing| >= 3 * |active|)
            && (|active| <= 3 ==> u.data.state == STATE_PLAYING && u.gameState == STATE_PLAYING)
  {
    var s, r := t.robots[a], t.robots[b];
    NewsCounts(r, Broadcast(s, false), now, x);
  }

  lemma NewsCounts(r: Robot, m: Message, now: int, x: Inputs)
    requires WellFormed(r) && x == Inputs([], false, x.whistle, true) && r.data.state == STATE_SET && r.actOnWhistle
    requires 1 <= m.playerNum <= ROBOTS_PER_TEAM && m.teamNum == r.teamNumber
    requires m.gameState == STATE_PLAYING && !m.resting
    requires r.data.Team(r.teamRed).penalties[m.playerNum - 1] == PENALTY_NONE
    ensures var u := Ticked(Receive(r, m, now), x);
            var active, playing := Active(r.heard) + {m.playerNum - 1}, SayPlaying(r.heard) + {m.playerNum - 1};
            && (u.data.state == STATE_PLAYING <==> 10 * |playing| >= 3 * |active|)
            && (|active| <= 3 ==> u.data.state == STATE_PLAYING && u.gameState == STATE_PLAYING)
  {
    var h, k := Receive(r, m, now), m.playerNum - 1;
    Stored(r, m, now);
    assert Active(h.heard) == Active(r.heard) + {k} && SayPlaying(h.heard) == SayPlaying(r.heard) + {k};
    assert k in Active(h.heard) && k in SayPlaying(h.heard);
    TickOnNews(h, x);
    AgreementThreshold(h.heard);
  }

  /** In SET, near the centre circle and acting on whistles, without a packet or a push. */
  lemma TickOnNews(r: Robot, x: Inputs)
    requires WellFormed(r) && x == Inputs([], false, x.whistle, true) && r.data.state == STATE_SET && r.actOnWhistle
    ensures Ticked(r, x).data.state == STATE_PLAYING <==> TeamAgrees(r.heard)
    ensures TeamAgrees(r.heard) ==> Ticked(r, x).gameState == STATE_PLAYING
  {
  }

  ghost predicate IsTeamRun(ts: seq<Team>, actions: seq<Action>) {
    && |ts| == |actions| + 1 && TeamWellFormed(ts[0])
    && forall i :: 0 <= i < |actions| ==> IsTeamStep(ts[i], actions[i], ts[i + 1])
  }

  ghost predicate IsTeamStep(t: Team, a: Action, t': Team) {
    TeamWellFormed(t) && Possible(t, a) && t' == Do(t, a)
  }

  /** Nobody plays, has heard of anybody playing, or has said so. */
  ghost predicate TeamQuiet(t: Team) {
    && (forall i :: 0 <= i < |t.robots| ==> Quiet(t.robots[i]))
    && forall m :: m in t.sent ==> m.gameState != STATE_PLAYING
  }

  /** The action is a robot's tick with a cause. */
  ghost predicate Starts(t: Team, a: Action)
    requires TeamWellFormed(t) && Possible(t, a)
  {
    a.DoTick? && Cause(t.robots[a.r], a.x)
  }

  lemma DoStaysQuiet(t: Team, a: Action)
    requires TeamWellFormed(t) && Possible(t, a) && TeamQuiet(t) && !Starts(t, a)
    ensures TeamQuiet(Do(t, a))
  {
    if a.DoTick? {
      TickStaysQuiet(t.robots[a.r], a.x);
    }
  }

  /** The step at which the game was started. */
  ghost predicate StartedBy(ts: seq<Team>, actions: seq<Action>, j: nat) {
    j < |actions| && j < |ts| && TeamWellFormed(ts[j]) && Possible(ts[j], actions[j]) && Starts(ts[j], actions[j])
  }

  lemma {:induction false} QuietUntilStarted(ts: seq<Team>, actions: seq<Action>, i: nat)
    requires IsTeamRun(ts, actions) && TeamQuiet(ts[0]) && i < |ts|
    requires forall j :: 0 <= j < i ==> !StartedBy(ts, actions, j)
    ensures TeamQuiet(ts[i])
  {
    if i > 0 {
      QuietUntilStarted(ts, actions, i - 1);
      assert IsTeamStep(ts[i - 1], actions[i - 1], ts[i]);
      assert !StartedBy(ts, actions, i - 1);
      DoStaysQuiet(ts[i - 1], actions[i - 1]);
    }
  }

  /** Causality: whatever the network does, if some robot publishes PLAYING then earlier some robot
      was told to play, was pushed into PLAYING, or heard a whistle in SET and acts on it. */
  lemma PlayingHasCause(ts: seq<Team>, actions: seq<Action>, i: nat, r: nat)
    requires IsTeamRun(ts, actions) && TeamQuiet(ts[0]) && i < |ts|
    requires r < |ts[i].robots| && ts[i].robots[r].gameState == STATE_PLAYING
    ensures exists j :: 0 <= j < i && StartedBy(ts, actions, j)
  {
    if forall j :: 0 <= j < i ==> !StartedBy(ts, actions, j) {
      QuietUntilStarted(ts, actions, i);
    }
  }

  /** In every run, what a robot publishes is coherent from its first tick on. */
  lemma {:induction false} TeamCoherent(ts: seq<Team>, actions: seq<Action>, i: nat, r: nat)
    requires IsTeamRun(ts, actions) && i < |ts| && r < |ts[0].robots|
    requires Coherent(ts[0].robots[r]) || exists j :: 0 <= j < i && actions[j].DoTick? && actions[j].r == r
    ensures r < |ts[i].robots| && Coherent(ts[i].robots[r])
  {
    SameRobots(ts, actions, i);
    if i > 0 {
      SameRobots(ts, actions, i - 1);
      assert IsTeamStep(ts[i - 1], actions[i - 1], ts[i]);
      if actions[i - 1].DoTick? && actions[i - 1].r == r {
        assert Coherent(Ticked(ts[i - 1].robots[r], actions[i - 1].x));
      } else {
        TeamCoherent(ts, actions, i - 1, r);
      }
    }
  }

  lemma {:induction false} SameRobots(ts: seq<Team>, actions: seq<Action>, i: nat)
    requires IsTeamRun(ts, actions) && i < |ts|
    ensures |ts[i].robots| == |ts[0].robots|
  {
    if i > 0 {
      SameRobots(ts, actions, i - 1);
      assert IsTeamStep(ts[i - 1], actions[i - 1], ts[i]);
    }
  }

  // ---------------------------------------------------------------- hearsay

  /** Nobody has heard or been told that anybody plays. */
  ghost predicate NothingSaid(t: Team) {
    && (forall i, k :: 0 <= i < |t.robots| && 0 <= k < |t.robots[i].heard| ==>
          t.robots[i].heard[k].gameState != STATE_PLAYING)
    && forall m :: m in t.sent ==> m.gameState != STATE_PLAYING
  }

  /** What an action does to the memory of robot r. */
  lemma HeardAfter(t: Team, a: Action, r: nat, k: nat)
    requires TeamWellFormed(t) && Possible(t, a) && r < |t.robots| && k < ROBOTS_PER_TEAM
    ensures var q, q' := t.robots[r], Do(t, a).robots[r];
            && q'.teamNumber == q.teamNumber && q'.playerNumber == q.playerNumber
            && (q'.heard[k].gameState == q.heard[k].gameState
                || (a.DoReceive? && a.r == r && a.m.playerNum == k + 1 && a.m.teamNum == q.teamNumber
                    && q'.heard[k].gameState == a.m.gameState))
  {
    if a.DoTick? {
      ParseAllFrame(t.robots[a.r], a.x.packets);
    }
  }

  /** Whatever a robot has heard from player k + 1 was broadcast by that player. */
  lemma {:induction false} HeardWasSent(ts: seq<Team>, actions: seq<Action>, i: nat, r: nat, k: nat)
    returns (m: Message)
    requires IsTeamRun(ts, actions) && NothingSaid(ts[0]) && i < |ts| && r < |ts[i].robots|
    requires TeamWellFormed(ts[i]) && k < ROBOTS_PER_TEAM && ts[i].robots[r].heard[k].gameState == STATE_PLAYING
    ensures m in ts[i].sent && m.gameState == STATE_PLAYING
    ensures m.playerNum == k + 1 && m.teamNum == ts[i].robots[r].teamNumber
  {
    SameRobots(ts, actions, i);
    if i == 0 {
      assert false;
    } else {
      var t, a := ts[i - 1], actions[i - 1];
      SameRobots(ts, actions, i - 1);
      assert IsTeamStep(t, a, ts[i]);
      HeardAfter(t, a, r, k);
      if t.robots[r].heard[k].gameState == STATE_PLAYING {
        m := HeardWasSent(ts, actions, i - 1, r, k);
      } else {
        m := a.m;
      }
    }
  }

  /** Whatever was broadcast was published before by the robot it names. */
  lemma {:induction false} SentWasPublished(ts: seq<Team>, actions: seq<Action>, i: nat, m: Message)
    returns (j: nat, q: nat)
    requires IsTeamRun(ts, actions) && NothingSaid(ts[0]) && i < |ts|
    requires m in ts[i].sent && m.gameState == STATE_PLAYING
    ensures j < i && q < |ts[j].robots|
    ensures var p := ts[j].robots[q];
            p.gameState == STATE_PLAYING && p.playerNumber == m.playerNum && p.teamNumber == m.teamNum
  {
    if i == 0 {
      assert false;
    } else {
      assert IsTeamStep(ts[i - 1], actions[i - 1], ts[i]);
      if m in ts[i - 1].sent {
        j, q := SentWasPublished(ts, actions, i - 1, m);
      } else {
        j, q := i - 1, actions[i - 1].r;
      }
    }
  }

  /** The robot with player number k + 1 of r's team published PLAYING before step i. */
  ghost predicate SaidBefore(ts: seq<Team>, i: nat, teamNumber: nat, k: nat) {
    exists j, q :: 0 <= j < i && j < |ts| && 0 <= q < |ts[j].robots| && Said(ts[j].robots[q], teamNumber, k)
  }

  predicate Said(p: Robot, teamNumber: nat, k: nat) {
    p.gameState == STATE_PLAYING && p.playerNumber == k + 1 && p.teamNumber == teamNumber
  }

  lemma HeardWasSaid(ts: seq<Team>, actions: seq<Action>, i: nat, r: nat, k: nat)
    requires IsTeamRun(ts, actions) && NothingSaid(ts[0]) && i < |ts| && r < |ts[i].robots|
    requires TeamWellFormed(ts[i]) && k < ROBOTS_PER_TEAM && ts[i].robots[r].heard[k].gameState == STATE_PLAYING
    ensures SaidBefore(ts, i, ts[i].robots[r].teamNumber, k)
  {
    var m := HeardWasSent(ts, actions, i, r, k);
    var j, q := SentWasPublished(ts, actions, i, m);
    assert Said(ts[j].robots[q], ts[i].robots[r].teamNumber, k);
  }

  /** Consensus over whole runs: when a robot enters PLAYING officially without a packet or its button,
      some player of its team published PLAYING before; with four or more active teammates, two
      different ones did. */
  lemma ConsensusWasSaid(ts: seq<Team>, actions: seq<Action>, i: nat)
    requires IsTeamRun(ts, actions) && NothingSaid(ts[0]) && i < |actions| && actions[i].DoTick?
    requires TeamWellFormed(ts[i]) && Possible(ts[i], actions[i])
    requires var r, x := ts[i].robots[actions[i].r], actions[i].x;
             && r.data.state != STATE_PLAYING && Ticked(r, x).data.state == STATE_PLAYING
             && !ToldToPlay(r, x) && !PushedToPlay(r, x)
    ensures var r := ts[i].robots[actions[i].r];
            exists k :: 0 <= k < ROBOTS_PER_TEAM && SaidBefore(ts, i, r.teamNumber, k)
    ensures var r := ts[i].robots[actions[i].r];
            |Active(r.heard)| >= 4 ==>
              exists k, l :: (0 <= k < l < ROBOTS_PER_TEAM
                              && SaidBefore(ts, i, r.teamNumber, k) && SaidBefore(ts, i, r.teamNumber, l))
  {
    var r := ts[i].robots[actions[i].r];
    OfficialPlaying(r, actions[i].x);
    AgreementThreshold(r.heard);
    var k :| k in SayPlaying(r.heard);
    HeardWasSaid(ts, actions, i, actions[i].r, k);
    if |Active(r.heard)| >= 4 {
      var k', l := TwoAgree(r.heard);
      HeardWasSaid(ts, actions, i, actions[i].r, k');
      HeardWasSaid(ts, actions, i, actions[i].r, l);
    }
  }

  // ---------------------------------------------------------------- the robot in place

  /** GameController and TeamReceiver, with the blackboard entries they share. */
  class Controller {
    const teamNumber: nat
    const playerNumber: nat
    const actOnWhistle: bool
    var data: GameData
    var teamRed: bool
    var gameState: nat
    var heard: seq<Heard>

    function Current(): Robot
      reads this
    {
      Robot(teamNumber, playerNumber, actOnWhistle, data, teamRed, gameState, heard)
    }

    constructor (r: Robot)
      ensures Current() == r
    {
      teamNumber, playerNumber, actOnWhistle := r.teamNumber, r.playerNumber, r.actOnWhistle;
      data, teamRed, gameState, heard := r.data, r.teamRed, r.gameState, r.heard;
    }

    method ParseData(p: Packet)
      requires WellFormed(Current()) && p.data.Complete()
      modifies `data
      ensures Current() == Parsed(old(Current()), p)
    {
      if p.header == STRUCT_HEADER && p.version == STRUCT_VERSION &&
         (p.data.blue.number == teamNumber || p.data.red.number == teamNumber) {
        var update := p.data;
        if update.blue.colour != TEAM_BLUE {
          update := update.(blue := update.red, red := update.blue);
        }
        if update.state == STATE_SET && data.state == STATE_PLAYING {
          update := update.(state := STATE_PLAYING);
        }
        if update != data {
          data := update;
        }
        var myPenalty := data.Team(teamRed).penalties[playerNumber - 1];
        if myPenalty != PENALTY_NONE {
          if data.state == STATE_SET {
            data := data.(state := STATE_PENALISED_IN_SET);
          } else {
            data := data.(state := STATE_PENALISED);
          }
        }
      }
    }

    method SetPenalty(penalty: nat)
      requires WellFormed(Current())
      modifies `data
      ensures Current() == WithPenalty(old(Current()), old(data.state), penalty)
    {
      if teamRed {
        data := data.(red := data.red.(penalties := data.red.penalties[playerNumber - 1 := penalty]));
      } else {
        data := data.(blue := data.blue.(penalties := data.blue.penalties[playerNumber - 1 := penalty]));
      }
    }

    method ButtonUpdate(pressed: bool)
      requires WellFormed(Current())
      modifies `data
      ensures Current() == if pressed then PushButton(old(Current())) else old(Current())
    {
      if pressed {
        if data.state == STATE_INITIAL || data.state == STATE_PLAYING {
          data := data.(state := STATE_PENALISED);
          SetPenalty(PENALTY_MANUAL);
        } else {
          data := data.(state := STATE_PLAYING);
          SetPenalty(PENALTY_NONE);
        }
      }
    }

    /** The loop over the teammates. */
    method CountTeammates() returns (playing: nat, active: nat)
      requires |heard| == ROBOTS_PER_TEAM
      ensures playing == |SayPlaying(heard)| && active == |Active(heard)|
    {
      playing, active := 0, 0;
      for i := 0 to ROBOTS_PER_TEAM
        invariant playing == Count(heard[..i], true) && active == Count(heard[..i], false)
      {
        assert heard[..i + 1][..i] == heard[..i];
        if !heard[i].incapacitated {
          active := active + 1;
          if heard[i].gameState == STATE_PLAYING {
            playing := playing + 1;
          }
        }
      }
      assert heard[..ROBOTS_PER_TEAM] == heard;
      CountIs(heard);
    }

    method Tick(x: Inputs)
      requires WellFormed(Current()) && ValidInputs(x)
      modifies this
      ensures Current() == Ticked(old(Current()), x)
    {
      var previousGameState := gameState;
      WirelessUpdate(x.packets);
      ButtonUpdate(x.button);
      if data.blue.number == teamNumber {
        teamRed := false;
      } else if data.red.number == teamNumber {
        teamRed := true;
      }
      WhistleUpdate(previousGameState, x);
    }

    /** The part of `tick` after packets and button. */
    method WhistleUpdate(previousGameState: nat, x: Inputs)
      requires |heard| == ROBOTS_PER_TEAM
      modifies `data, `gameState
      ensures Current() == Whistled(old(Current()), previousGameState, x)
    {
      var opinion := data.state;
      if opinion == STATE_SET && previousGameState == STATE_PLAYING {
        opinion := previousGameState;
      }
      if opinion == STATE_SET && x.whistle {
        if actOnWhistle {
          opinion := STATE_PLAYING;
        }
      }
      if data.state == STATE_SET {
        var playing, active := CountTeammates();
        if active > 0 {
          if 10 * playing >= 3 * active && x.near && actOnWhistle {
            data := data.(state := STATE_PLAYING);
          }
        }
      }
      gameState := data.state;
      if opinion == STATE_PLAYING && data.state == STATE_SET {
        gameState := opinion;
      }
    }

    method WirelessUpdate(packets: seq<Packet>)
      requires WellFormed(Current()) && forall i :: 0 <= i < |packets| ==> packets[i].data.Complete()
      modifies `data
      ensures Current() == ParseAll(old(Current()), packets)
    {
      for i := 0 to |packets|
        invariant Current() == ParseAll(old(Current()), packets[..i])
      {
        assert packets[..i + 1][..i] == packets[..i];
        ParseData(packets[i]);
      }
      assert packets[..|packets|] == packets;
    }

    method NaoHandler(m: Message, now: int)
      requires WellFormed(Current())
      modifies `heard
      ensures Current() == Receive(old(Current()), m, now)
    {
      if m.playerNum >= 1 && m.playerNum <= ROBOTS_PER_TEAM && m.teamNum == teamNumber {
        var incapacitated := false;
        if data.Team(teamRed).penalties[m.playerNum - 1] != PENALTY_NONE {
          incapacitated := true;
        }
        incapacitated := incapacitated || m.resting;
        heard := heard[m.playerNum - 1 := Heard(m.gameState, incapacitated, now)];
      }
    }

    method ReceiverTick(now: int)
      requires WellFormed(Current())
      modifies `heard
      ensures Current() == CheckSilence(old(Current()), now)
    {
      ghost var h := heard;
      for robot := 0 to ROBOTS_PER_TEAM
        invariant |heard| == ROBOTS_PER_TEAM
        invariant forall i :: 0 <= i < ROBOTS_PER_TEAM ==> heard[i] == if i < robot then TimedOut(h[i], now) else h[i]
      {
        if now - heard[robot].lastReceived > SECS_TILL_INCAPACITATED {
          heard := heard[robot := heard[robot].(incapacitated := true)];
        }
      }
    }
  }
}
