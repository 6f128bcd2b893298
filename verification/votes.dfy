/** The game server's vote bookkeeping: counting the ballots of a running
    vote, deciding it, casting a ballot, the list of vote options, and
    aborting a kick vote when its target leaves.

    Client slots are a sequence of optional players. Network messages,
    chat and console output are left out; the console's line check and the
    clock enter as parameters.
 */
module Votes {
  import opened Wrappers
  import opened Text

  // ---------------------------------------------------------------------
  // Players and the tally

  datatype Player = Player(spectator: bool, bot: bool, vote: int, votePos: int, addr: string)

  type Slots = seq<Option<Player>>

  predicate Present(s: Slots, i: int) {
    0 <= i < |s| && s[i].Some?
  }

  /** A player whose ballot the tally may count: neither spectator nor bot. */
  predicate Eligible(s: Slots, i: int) {
    Present(s, i) && !s[i].value.spectator && !s[i].value.bot
  }

  predicate SameAddr(s: Slots, i: int, j: int) {
    Present(s, i) && Present(s, j) && s[i].value.addr == s[j].value.addr
  }

  /** Player `i` casts the ballot of its address: it is eligible and no
      eligible player in an earlier slot shares its address. */
  predicate Leads(s: Slots, i: int) {
    Eligible(s, i) && forall k :: 0 <= k < i ==> !(Eligible(s, k) && SameAddr(s, k, i))
  }

  /** The players whose votes may stand for leader `i`: `i` itself and every
      later player, spectators and bots included, sharing its address. */
  predicate InGroup(s: Slots, i: int, m: int) {
    Present(s, i) && Present(s, m) && (m == i || (i < m && s[m].value.addr == s[i].value.addr))
  }

  /** A vote and the position at which it was cast. */
  datatype Ballot = Ballot(vote: int, pos: int)

  function BallotOf(p: Player): Ballot {
    Ballot(p.vote, p.votePos)
  }

  /** The scan over slots `j` and later: a same-address player's nonzero
      vote replaces the running one when there is none yet or it was cast
      earlier. */
  function Scan(s: Slots, i: int, j: int, act: Ballot): Ballot
    requires Present(s, i) && i < j
    decreases |s| - j
  {
    if j >= |s| then act
    else if SameAddr(s, i, j) && s[j].value.vote != 0 && (act.vote == 0 || act.pos > s[j].value.votePos)
    then Scan(s, i, j + 1, BallotOf(s[j].value))
    else Scan(s, i, j + 1, act)
  }

  /** The ballot counted for leader `i`. */
  function GroupBallot(s: Slots, i: int): Ballot
    requires Present(s, i)
  {
    Scan(s, i, i + 1, BallotOf(s[i].value))
  }

  /** What the scan has settled on after the slots before `j`: no vote if
      every group member so far voted 0, otherwise the ballot of a member
      cast no later than any other nonzero vote so far. */
  ghost predicate EarliestSoFar(s: Slots, i: int, j: int, b: Ballot)
  {
    && (b.vote == 0 <==> forall m :: 0 <= m < j && InGroup(s, i, m) ==> s[m].value.vote == 0)
    && (b.vote != 0 ==> exists w :: 0 <= w < j && InGroup(s, i, w) && BallotOf(s[w].value) == b)
    && (b.vote != 0 ==> forall m :: 0 <= m < j && InGroup(s, i, m) && s[m].value.vote != 0 ==> b.pos <= s[m].value.votePos)
  }

  lemma {:induction false} ScanKeepsEarliest(s: Slots, i: int, j: int, b: Ballot)
    requires Present(s, i) && i < j
    requires EarliestSoFar(s, i, j, b)
    ensures EarliestSoFar(s, i, |s|, Scan(s, i, j, b))
    decreases |s| - j
  {
    if j >= |s| {
      assert forall m :: j <= m && InGroup(s, i, m) ==> m < |s|;
    } else {
      var b' := if SameAddr(s, i, j) && s[j].value.vote != 0 && (b.vote == 0 || b.pos > s[j].value.votePos)
                then BallotOf(s[j].value) else b;
      assert EarliestSoFar(s, i, j + 1, b') by {
        if b' != b {
          assert InGroup(s, i, j);
        } else if InGroup(s, i, j) {
          assert j != i;
        }
      }
      ScanKeepsEarliest(s, i, j + 1, b');
    }
  }

  /** The counted vote is 0 exactly when every member of the group voted 0;
      otherwise it is the vote of the member who voted first. */
  lemma GroupBallotIsEarliest(s: Slots, i: int)
    requires Present(s, i)
    ensures var b := GroupBallot(s, i);
            && (b.vote == 0 <==> forall m :: InGroup(s, i, m) ==> s[m].value.vote == 0)
            && (b.vote != 0 ==> exists w :: InGroup(s, i, w) && BallotOf(s[w].value) == b)
            && (b.vote != 0 ==> forall m :: InGroup(s, i, m) && s[m].value.vote != 0 ==> b.pos <= s[m].value.votePos)
  {
    assert forall m :: 0 <= m < i + 1 && InGroup(s, i, m) ==> m == i;
    ScanKeepsEarliest(s, i, i + 1, BallotOf(s[i].value));
  }

  /** The number of ballots counted and how many of them are yes and no. */
  datatype Count = Count(total: int, yes: int, no: int)

  /** The count over the slots before `n`: each leader adds its group's
      ballot; a positive vote is yes, a negative one no, 0 abstains. */
  function Counted(s: Slots, n: int): (c: Count)
    requires 0 <= n <= |s|
    ensures 0 <= c.yes && 0 <= c.no && c.yes + c.no <= c.total <= n
  {
    if n == 0 then Count(0, 0, 0)
    else
      var c := Counted(s, n - 1);
      if Leads(s, n - 1) then
        var v := GroupBallot(s, n - 1).vote;
        Count(c.total + 1, c.yes + (if v > 0 then 1 else 0), c.no + (if v < 0 then 1 else 0))
      else c
  }

  /** The addresses of the eligible players before slot `n`. */
  ghost function EligibleAddrs(s: Slots, n: int): set<string>
    requires 0 <= n <= |s|
  {
    set k | 0 <= k < n && Eligible(s, k) :: s[k].value.addr
  }

  /** One ballot is counted per address with an eligible player. */
  lemma {:induction false} OneBallotPerAddress(s: Slots, n: int)
    requires 0 <= n <= |s|
    ensures Counted(s, n).total == |EligibleAddrs(s, n)|
  {
    if n > 0 {
      OneBallotPerAddress(s, n - 1);
      var before := EligibleAddrs(s, n - 1);
      if Eligible(s, n - 1) {
        var a := s[n - 1].value.addr;
        assert EligibleAddrs(s, n) == before + {a};
        if Leads(s, n - 1) {
          assert a !in before;
        } else {
          var k :| 0 <= k < n - 1 && Eligible(s, k) && SameAddr(s, k, n - 1);
          assert a in before;
        }
      } else {
        assert EligibleAddrs(s, n) == before;
      }
    }
  }

  /** Some leader in a slot before `n` shares the address of `i`. */
  ghost predicate LedBefore(s: Slots, n: int, i: int) {
    exists l :: 0 <= l < n && Leads(s, l) && SameAddr(s, l, i)
  }

  /** The first eligible player of an address leads it. */
  lemma {:induction false} EarliestEligibleLeads(s: Slots, k: int, i: int)
    requires Eligible(s, k) && SameAddr(s, k, i)
    ensures LedBefore(s, k + 1, i)
    decreases k
  {
    if !Leads(s, k) {
      var k' :| 0 <= k' < k && Eligible(s, k') && SameAddr(s, k', k);
      EarliestEligibleLeads(s, k', i);
    }
  }

  /** The tally's skip test: an eligible player not marked by an earlier
      leader is a leader. */
  lemma LeadsIffUnmarked(s: Slots, i: int)
    requires 0 <= i < |s|
    ensures Leads(s, i) <==> Eligible(s, i) && !LedBefore(s, i, i)
  {
    if Eligible(s, i) && !Leads(s, i) {
      var k :| 0 <= k < i && Eligible(s, k) && SameAddr(s, k, i);
      EarliestEligibleLeads(s, k, i);
    }
  }

  /** The scan after a leader takes every later player of its address,
      spectators included: a spectator's yes stands for a player who has
      not voted. */
  lemma SpectatorBallotCounts()
    ensures var s := [Some(Player(false, false, 0, 0, "a")), Some(Player(true, false, 1, 1, "a"))];
            Counted(s, 2) == Count(1, 1, 0)
  {
    var s := [Some(Player(false, false, 0, 0, "a")), Some(Player(true, false, 1, 1, "a"))];
    assert Leads(s, 0) && !Leads(s, 1);
    assert GroupBallot(s, 0) == Ballot(1, 1);
  }

  /** The tally as the server's tick runs it: each slot not skipped (absent,
      spectator, bot, or marked) takes its own ballot, then every later
      unmarked present player of its address is marked and its nonzero
      vote taken over when none was taken yet or it was cast earlier. */
  method Tally(s: Slots) returns (c: Count)
    ensures c == Counted(s, |s|)
  {
    var checked := seq(|s|, k => false);
    c := Count(0, 0, 0);
    var i := 0;
    while i < |s|
      invariant 0 <= i <= |s| && |checked| == |s|
      invariant c == Counted(s, i)
      invariant forall k :: i <= k < |s| ==> (checked[k] <==> Present(s, k) && LedBefore(s, i, k))
    {
      LeadsIffUnmarked(s, i);
      if s[i].Some? && !s[i].value.spectator && !checked[i] && !s[i].value.bot {
        var act;
        act, checked := ScanGroup(s, i, checked);
        var v := act.vote;
        c := Count(c.total + 1, c.yes + (if v > 0 then 1 else 0), c.no + (if v < 0 then 1 else 0));
      } else {
        SkipKeepsMarks(s, i);
      }
      i := i + 1;
    }
  }

  /** The inner loop of the tally for leader `i`: it marks every later
      player sharing the leader's address and settles on the group's ballot. */
  method ScanGroup(s: Slots, i: int, checked: seq<bool>) returns (act: Ballot, checked': seq<bool>)
    requires Leads(s, i) && |checked| == |s|
    requires forall k :: i < k < |s| ==> (checked[k] <==> Present(s, k) && LedBefore(s, i, k))
    ensures act == GroupBallot(s, i) && |checked'| == |s|
    ensures forall k :: i < k < |s| ==> (checked'[k] <==> Present(s, k) && LedBefore(s, i + 1, k))
  {
    checked' := checked;
    act := BallotOf(s[i].value);
    var j := i + 1;
    while j < |s|
      invariant i < j <= |s| && |checked'| == |s|
      invariant Scan(s, i, j, act) == GroupBallot(s, i)
      invariant forall k :: j <= k < |s| ==> (checked'[k] <==> Present(s, k) && LedBefore(s, i, k))
      invariant forall k :: i < k < j ==> (checked'[k] <==> Present(s, k) && LedBefore(s, i + 1, k))
    {
      MarkStep(s, i, j);
      if s[j].Some? && !checked'[j] && s[j].value.addr == s[i].value.addr {
        checked' := checked'[j := true];
        var p := s[j].value;
        if p.vote != 0 && (act.vote == 0 || act.pos > p.votePos) {
          act := BallotOf(p);
        }
      }
      j := j + 1;
    }
  }

  /** Marking slot `j` in the scan of leader `i`: a player already marked
      cannot share the leader's address, and after the scan a player is
      marked exactly when a leader up to `i` shares its address. */
  lemma MarkStep(s: Slots, i: int, j: int)
    requires Leads(s, i) && i < j < |s|
    ensures Present(s, j) && LedBefore(s, i, j) ==> !SameAddr(s, i, j)
    ensures Present(s, j) ==> (LedBefore(s, i + 1, j) <==> LedBefore(s, i, j) || SameAddr(s, i, j))
  {
    if Present(s, j) && LedBefore(s, i, j) {
      var l :| 0 <= l < i && Leads(s, l) && SameAddr(s, l, j);
      if SameAddr(s, i, j) {
        assert false;
      }
    }
    if Present(s, j) && LedBefore(s, i + 1, j) && !SameAddr(s, i, j) {
      var l :| 0 <= l < i + 1 && Leads(s, l) && SameAddr(s, l, j);
      assert l != i;
    }
  }

  /** A slot that does not lead marks no one. */
  lemma SkipKeepsMarks(s: Slots, i: int)
    requires 0 <= i < |s| && !Leads(s, i)
    ensures forall k :: i < k < |s| ==> (LedBefore(s, i + 1, k) <==> LedBefore(s, i, k))
  {
    forall k | i < k < |s| && LedBefore(s, i + 1, k)
      ensures LedBefore(s, i, k)
    {
      var l :| 0 <= l < i + 1 && Leads(s, l) && SameAddr(s, l, k);
      assert l != i;
    }
  }

  // ---------------------------------------------------------------------
  // Deciding and ticking a running vote

  /** What a count or a forcing console command has settled the vote to. */
  datatype Enforcement = EnforceUnknown | EnforceNo | EnforceYes

  /** The decision after a count: yes when it has at least half the counted
      ballots plus one, otherwise no when it has at least half rounded up,
      otherwise the earlier setting stands. Counts are never negative, so
      C's truncating division agrees with Dafny's. */
  function Decide(c: Count, e: Enforcement): (r: Enforcement)
    requires c.total >= 0
    ensures r == EnforceYes <==> 2 * c.yes > c.total || (e == EnforceYes && 2 * c.no < c.total)
    ensures r == EnforceNo <==> 2 * c.yes <= c.total && (2 * c.no >= c.total || e == EnforceNo)
    ensures 2 * c.yes <= c.total && 2 * c.no < c.total ==> r == e
  {
    if c.yes >= c.total / 2 + 1 then EnforceYes
    else if c.no >= (c.total + 1) / 2 then EnforceNo
    else e
  }

  /** A count with no ballots decides no, and a tie of yes and no decides no. */
  lemma {:induction false} EmptyOrTiedCountFails(c: Count, e: Enforcement)
    requires 0 <= c.yes && 0 <= c.no && c.yes + c.no <= c.total
    requires c.total == 0 || 2 * c.yes == c.total == 2 * c.no
    ensures Decide(c, e) == EnforceNo
  {
  }

  /** Over a count from the tally, a yes majority and a no decision exclude
      each other, and the decision is forced one way or the other once every
      counted ballot is yes or no. */
  lemma {:induction false} DecideFromTally(s: Slots, e: Enforcement)
    ensures var c := Counted(s, |s|);
            && (2 * c.yes > c.total ==> 2 * c.no < c.total)
            && (c.yes + c.no == c.total ==> Decide(c, e) != EnforceUnknown)
  {
  }

  /** The server's vote state. `closeTime` is 0 when no vote runs, -1 once
      the vote is to be aborted, and the closing time otherwise; `pos` is
      the position handed to the last ballot. */
  datatype VoteState = VoteState(closeTime: int, enforce: Enforcement, update: bool, pos: int, command: string)

  datatype Outcome = NoVote | Aborted | Passed(command: string) | Failed | Running

  /** The result of one tick, with the status sent to clients after a
      recount that left the vote running. */
  datatype Tick = Tick(state: VoteState, outcome: Outcome, status: Option<Count>)

  /** The vote part of the server tick; `timedOut` stands for the clock
      being past `closeTime`. Ballots are recounted only after a change. */
  function VoteTick(v: VoteState, s: Slots, timedOut: bool): (r: Tick)
    ensures r.outcome == NoVote <==> v.closeTime == 0
    ensures r.outcome == NoVote ==> r.state == v
    ensures v.closeTime == -1 ==> r.outcome == Aborted
    ensures r.outcome.Passed? ==> r.outcome.command == v.command
    ensures r.outcome.Running? ==> r.state.closeTime == v.closeTime != 0 && !r.state.update
    ensures r.outcome in {Aborted, Failed} || r.outcome.Passed? ==> r.state.closeTime == 0
    ensures r.status.Some? ==> r.outcome == Running && r.status.value == Counted(s, |s|)
    ensures r.state.command == v.command && r.state.pos == v.pos
  {
    if v.closeTime == 0 then Tick(v, NoVote, None)
    else if v.closeTime == -1 then Tick(v.(closeTime := 0), Aborted, None)
    else
      var c := Counted(s, |s|);
      var e := if v.update then Decide(c, v.enforce) else v.enforce;
      var v1 := v.(enforce := e);
      if e == EnforceYes then Tick(v1.(closeTime := 0), Passed(v.command), None)
      else if e == EnforceNo || timedOut then Tick(v1.(closeTime := 0), Failed, None)
      else if v.update then Tick(v1.(update := false), Running, Some(c))
      else Tick(v1, Running, None)
  }

  /** After a change, a running vote passes exactly when yes holds a
      majority of the counted ballots or the vote was already forced yes
      and no lacks half. */
  lemma {:induction false} TickPassesOnMajority(v: VoteState, s: Slots, timedOut: bool)
    requires v.closeTime != 0 && v.closeTime != -1 && v.update
    ensures var c := Counted(s, |s|);
            VoteTick(v, s, timedOut).outcome.Passed? <==>
              2 * c.yes > c.total || (v.enforce == EnforceYes && 2 * c.no < c.total)
  {
  }

  /** Without a change, an undecided vote that has not timed out keeps
      running and its state stays as it was. */
  lemma {:induction false} QuietTickKeepsRunning(v: VoteState, s: Slots)
    requires v.closeTime != 0 && v.closeTime != -1 && !v.update && v.enforce == EnforceUnknown
    ensures VoteTick(v, s, false) == Tick(v, Running, None)
  {
  }

  /** A timed-out vote never keeps running. */
  lemma {:induction false} TimeoutEndsVote(v: VoteState, s: Slots)
    requires v.closeTime != 0
    ensures VoteTick(v, s, true).outcome != Running
    ensures VoteTick(v, s, true).state.closeTime == 0
  {
  }

  // ---------------------------------------------------------------------
  // Casting a ballot

  datatype Cast = Cast(state: VoteState, slots: Slots)

  /** A vote message from the player in slot `id`: it counts only while a
      vote runs, only as the player's first ballot, and only when nonzero;
      the ballot then gets the next position. */
  function CastVote(v: VoteState, s: Slots, id: int, msgVote: int): (r: Cast)
    requires Present(s, id)
    ensures |r.slots| == |s|
    ensures forall k :: 0 <= k < |s| && k != id ==> r.slots[k] == s[k]
    ensures r.slots[id].Some?
    ensures var p, q := s[id].value, r.slots[id].value;
            q.spectator == p.spectator && q.bot == p.bot && q.addr == p.addr
    ensures r.slots[id] != s[id] || r.state != v <==> v.closeTime != 0 && s[id].value.vote == 0 && msgVote != 0
    ensures r.slots[id] != s[id] ==> r.slots[id].value.vote == msgVote && r.slots[id].value.votePos == r.state.pos == v.pos + 1
    ensures r.state != v ==> r.state == v.(pos := v.pos + 1, update := true)
  {
    var p := s[id].value;
    if v.closeTime == 0 || p.vote != 0 || msgVote == 0 then Cast(v, s)
    else
      var v' := v.(pos := v.pos + 1, update := true);
      Cast(v', s[id := Some(p.(vote := msgVote, votePos := v'.pos))])
  }

  /** A player's first ballot is final: a second message changes nothing. */
  lemma {:induction false} CastOnce(v: VoteState, s: Slots, id: int, first: int, second: int)
    requires Present(s, id)
    requires var r := CastVote(v, s, id, first); r.slots[id] != s[id]
    ensures var r := CastVote(v, s, id, first);
            CastVote(r.state, r.slots, id, second) == r
  {
  }

  /** The ballots cast so far carry distinct positions from 1 to `pos`. */
  predicate BallotsOrdered(s: Slots, pos: int) {
    && pos >= 0
    && (forall k :: 0 <= k < |s| && s[k].Some? && s[k].value.vote != 0 ==> 1 <= s[k].value.votePos <= pos)
    && (forall k, m :: 0 <= k < m < |s| && s[k].Some? && s[m].Some? && s[k].value.vote != 0 && s[m].value.vote != 0
          ==> s[k].value.votePos != s[m].value.votePos)
  }

  /** Casting keeps the positions distinct, and a new ballot comes after
      every earlier one, so "voted first" is well defined. */
  lemma {:induction false} CastKeepsOrder(v: VoteState, s: Slots, id: int, msgVote: int)
    requires Present(s, id) && BallotsOrdered(s, v.pos)
    ensures var r := CastVote(v, s, id, msgVote); BallotsOrdered(r.slots, r.state.pos)
    ensures var r := CastVote(v, s, id, msgVote);
            r.slots[id] != s[id] ==>
              forall k :: 0 <= k < |s| && k != id && s[k].Some? && s[k].value.vote != 0 ==> s[k].value.votePos < r.slots[id].value.votePos
  {
    var r := CastVote(v, s, id, msgVote);
    if r.slots[id] != s[id] {
      assert BallotsOrdered(r.slots, r.state.pos) by {
        forall k | 0 <= k < |s| && r.slots[k].Some? && r.slots[k].value.vote != 0
          ensures 1 <= r.slots[k].value.votePos <= r.state.pos
        {
          if k != id {
            assert r.slots[k] == s[k];
          }
        }
        forall k, m | 0 <= k < m < |s| && r.slots[k].Some? && r.slots[m].Some? && r.slots[k].value.vote != 0 && r.slots[m].value.vote != 0
          ensures r.slots[k].value.votePos != r.slots[m].value.votePos
        {
          if k != id && m != id {
            assert r.slots[k] == s[k] && r.slots[m] == s[m];
          }
        }
      }
    }
  }

  // ---------------------------------------------------------------------
  // The list of vote options

  datatype VoteOption = VoteOption(description: string, command: string)

  /** The option count limit and the sizes of the description and command
      buffers. */
  datatype Limits = Limits(maxOptions: nat, cmdLength: nat, descLength: nat)

  datatype AddResult = Added | TooMany | InvalidCommand | InvalidDescription | Duplicate

  datatype AddOutcome = AddOutcome(options: seq<VoteOption>, result: AddResult)

  /** The description with its leading blanks skipped. */
  function StripLeadingSpaces(d: string): (r: string)
    ensures |r| <= |d| && r == d[|d| - |r|..]
    ensures forall k :: 0 <= k < |d| - |r| ==> d[k] == ' '
    ensures r == [] || r[0] != ' '
  {
    if |d| > 0 && d[0] == ' ' then StripLeadingSpaces(d[1..]) else d
  }

  /** Some option's description equals `d` up to ASCII case. */
  predicate HasOption(options: seq<VoteOption>, d: string) {
    exists k :: 0 <= k < |options| && SameNoCase(d, options[k].description)
  }

  /** What every list built by the console commands satisfies: within the
      count limit, descriptions non-empty, without leading blanks, fitting
      their buffer and distinct up to case, commands fitting theirs. */
  predicate WellFormed(options: seq<VoteOption>, lim: Limits) {
    && |options| <= lim.maxOptions
    && (forall k :: 0 <= k < |options| ==> GoodOption(options[k], lim))
    && (forall k, m :: 0 <= k < m < |options| ==> !SameNoCase(options[k].description, options[m].description))
  }

  predicate GoodOption(o: VoteOption, lim: Limits) {
    && |o.description| > 0 && o.description[0] != ' ' && |o.description| < lim.descLength
    && |o.command| < lim.cmdLength
  }

  /** `add_vote`: the checks in the order the console command makes them,
      then the option is appended at the tail. `lineValid` stands for the
      console's own syntax check of the command. */
  function AddVote(options: seq<VoteOption>, lim: Limits, lineValid: bool, description: string, command: string): (r: AddOutcome)
    ensures r.result == Added <==> r.options != options
    ensures r.result == Added ==> r.options == options + [VoteOption(StripLeadingSpaces(description), command)]
    ensures r.result == TooMany <==> |options| == lim.maxOptions
    ensures r.result == InvalidCommand <==> |options| != lim.maxOptions && (!lineValid || |command| >= lim.cmdLength)
    ensures r.result == Added ==> GoodOption(VoteOption(StripLeadingSpaces(description), command), lim)
    ensures var d := StripLeadingSpaces(description);
            r.result == InvalidDescription <==>
              |options| != lim.maxOptions && lineValid && |command| < lim.cmdLength
              && (|d| == 0 || |d| >= lim.descLength)
    ensures var d := StripLeadingSpaces(description);
            r.result == Duplicate <==>
              |options| != lim.maxOptions && lineValid && |command| < lim.cmdLength
              && 0 < |d| < lim.descLength && HasOption(options, d)
    ensures r.result == Added ==> !HasOption(options, StripLeadingSpaces(description))
  {
    var d := StripLeadingSpaces(description);
    if |options| == lim.maxOptions then AddOutcome(options, TooMany)
    else if !lineValid || |command| >= lim.cmdLength then AddOutcome(options, InvalidCommand)
    else if |d| >= lim.descLength || |d| == 0 then AddOutcome(options, InvalidDescription)
    else if HasOption(options, d) then AddOutcome(options, Duplicate)
    else
      var r := options + [VoteOption(d, command)];
      assert r[|options|] == VoteOption(d, command);
      AddOutcome(r, Added)
  }

  /** The first option whose description equals `d` up to case. */
  function FirstMatch(options: seq<VoteOption>, d: string): (r: Option<nat>)
    ensures r.None? <==> !HasOption(options, d)
    ensures r.Some? ==> r.value < |options| && SameNoCase(d, options[r.value].description)
    ensures r.Some? ==> forall k :: 0 <= k < r.value ==> !SameNoCase(d, options[k].description)
  {
    if |options| == 0 then None
    else if SameNoCase(d, options[0].description) then Some(0)
    else
      match FirstMatch(options[1..], d)
      case None =>
        assert forall k :: 1 <= k < |options| ==> options[k] == options[1..][k - 1];
        None
      case Some(i) => Some(i + 1)
  }

  datatype RemoveOutcome = RemoveOutcome(options: seq<VoteOption>, removed: bool)

  /** `remove_vote`: the first option matching the description, compared
      without skipping blanks, is dropped and the others keep their order;
      a description that matches none changes nothing. */
  function RemoveVote(options: seq<VoteOption>, description: string): (r: RemoveOutcome)
    ensures r.removed <==> HasOption(options, description)
    ensures !r.removed ==> r.options == options
    ensures r.removed ==> |r.options| == |options| - 1
    ensures r.removed ==> exists i :: 0 <= i < |options| && SameNoCase(description, options[i].description) &&
                            r.options == options[..i] + options[i + 1..]
  {
    match FirstMatch(options, description)
    case None => RemoveOutcome(options, false)
    case Some(i) => RemoveOutcome(options[..i] + options[i + 1..], true)
  }

  /** `clear_votes`: the list is emptied, so any option can be added next
      while the limit allows one. */
  function ClearVotes(options: seq<VoteOption>): (r: seq<VoteOption>)
    ensures forall lim :: WellFormed(r, lim)
    ensures forall d :: !HasOption(r, d)
  {
    []
  }

  /** Adding keeps a list well formed. */
  lemma {:induction false} AddKeepsWellFormed(options: seq<VoteOption>, lim: Limits, lineValid: bool, description: string, command: string)
    requires WellFormed(options, lim)
    ensures WellFormed(AddVote(options, lim, lineValid, description, command).options, lim)
  {
    var r := AddVote(options, lim, lineValid, description, command);
    if r.result == Added {
      var o := VoteOption(StripLeadingSpaces(description), command);
      assert r.options == options + [o];
      forall k, m | 0 <= k < m < |r.options|
        ensures !SameNoCase(r.options[k].description, r.options[m].description)
      {
        if m == |options| {
          assert r.options[k] == options[k] && !SameNoCase(o.description, options[k].description);
          SameNoCaseEquivalence(options[k].description, o.description, o.description);
        } else {
          assert r.options[k] == options[k] && r.options[m] == options[m];
        }
      }
    }
  }

  /** Removing keeps a list well formed, and no option matching the removed
      description is left. */
  lemma {:induction false} RemoveKeepsWellFormed(options: seq<VoteOption>, lim: Limits, description: string)
    requires WellFormed(options, lim)
    ensures WellFormed(RemoveVote(options, description).options, lim)
    ensures !HasOption(RemoveVote(options, description).options, description)
  {
    var r := RemoveVote(options, description);
    if r.removed {
      var i := FirstMatch(options, description).value;
      DropKeepsWellFormed(options, lim, i);
      forall k | 0 <= k < |r.options|
        ensures !SameNoCase(description, r.options[k].description)
      {
        var j := if k < i then k else k + 1;
        assert r.options[k] == options[j];
        OnlyOneMatch(description, options[i].description, options[j].description);
      }
    }
  }

  /** Dropping one option keeps a list well formed. */
  lemma DropKeepsWellFormed(options: seq<VoteOption>, lim: Limits, i: nat)
    requires WellFormed(options, lim) && i < |options|
    ensures WellFormed(options[..i] + options[i + 1..], lim)
  {
    var r := options[..i] + options[i + 1..];
    assert forall k :: 0 <= k < |r| ==> r[k] == options[if k < i then k else k + 1];
  }

  /** A description matching one of two descriptions that differ up to
      case does not match the other. */
  lemma OnlyOneMatch(d: string, a: string, b: string)
    requires SameNoCase(d, a) && !SameNoCase(a, b) && !SameNoCase(b, a)
    ensures !SameNoCase(d, b)
  {
    SameNoCaseEquivalence(a, d, b);
    SameNoCaseEquivalence(d, a, b);
  }

  /** Removing the description just added restores the list. */
  lemma {:induction false} RemoveUndoesAdd(options: seq<VoteOption>, lim: Limits, lineValid: bool, description: string, command: string)
    requires AddVote(options, lim, lineValid, description, command).result == Added
    ensures RemoveVote(AddVote(options, lim, lineValid, description, command).options, StripLeadingSpaces(description))
            == RemoveOutcome(options, true)
  {
    var d := StripLeadingSpaces(description);
    var a := AddVote(options, lim, lineValid, description, command).options;
    assert a == options + [VoteOption(d, command)];
    SameNoCaseEquivalence(d, d, d);
    assert SameNoCase(d, a[|options|].description);
    assert forall k :: 0 <= k < |options| ==> a[k] == options[k];
    assert FirstMatch(a, d) == Some(|options|);
    assert a[..|options|] == options;
  }

  // ---------------------------------------------------------------------
  // Aborting a kick vote when its target leaves

  predicate IsSpace(c: char) {
    c == ' ' || '\t' <= c <= '\r'
  }

  predicate IsDigit(c: char) {
    '0' <= c <= '9'
  }

  /** The longest prefix of decimal digits. */
  function LeadingDigits(s: string): (r: string)
    ensures |r| <= |s| && r == s[..|r|]
    ensures forall k :: 0 <= k < |r| ==> IsDigit(r[k])
    ensures |r| < |s| ==> !IsDigit(s[|r|])
  {
    if |s| > 0 && IsDigit(s[0]) then [s[0]] + LeadingDigits(s[1..]) else []
  }

  /** The value of a string of decimal digits, most significant first. */
  function DigitsValue(d: string): (r: nat)
    requires forall k :: 0 <= k < |d| ==> IsDigit(d[k])
  {
    if |d| == 0 then 0
    else
      assert IsDigit(d[|d| - 1]);
      10 * DigitsValue(d[..|d| - 1]) + (d[|d| - 1] as int - '0' as int)
  }

  /** C's `atoi`, which `str_toint` calls: blanks skipped, an optional sign,
      then as many digits as follow; no digits read as 0. Overflow is not
      modelled. */
  function ToInt(s: string): int {
    if |s| > 0 && IsSpace(s[0]) then ToInt(s[1..])
    else if |s| > 0 && s[0] == '-' then -(DigitsValue(LeadingDigits(s[1..])) as int)
    else if |s| > 0 && s[0] == '+' then DigitsValue(LeadingDigits(s[1..]))
    else DigitsValue(LeadingDigits(s))
  }

  /** `%d` formatting of a non-negative number. */
  function Decimal(n: nat): (r: string)
    ensures |r| > 0 && forall k :: 0 <= k < |r| ==> IsDigit(r[k])
  {
    var c := ('0' as int + n % 10) as char;
    if n < 10 then [c] else Decimal(n / 10) + [c]
  }

  /** Reading a formatted number back gives the number. */
  lemma {:induction false} DecimalRoundTrip(n: nat)
    ensures DigitsValue(Decimal(n)) == n
  {
    if n >= 10 {
      DecimalRoundTrip(n / 10);
      var d := Decimal(n);
      assert d[..|d| - 1] == Decimal(n / 10);
    }
  }

  /** The digits of a formatted number stop where the number does. */
  lemma {:induction false} LeadingDigitsOfDecimal(d: string, rest: string)
    requires forall k :: 0 <= k < |d| ==> IsDigit(d[k])
    requires rest == [] || !IsDigit(rest[0])
    ensures LeadingDigits(d + rest) == d
  {
    if |d| > 0 {
      assert (d + rest)[1..] == d[1..] + rest;
      LeadingDigitsOfDecimal(d[1..], rest);
    }
  }

  /** `atoi` reads back a formatted number when no digit follows it. */
  lemma ToIntOfDecimal(n: nat, rest: string)
    requires rest == [] || !IsDigit(rest[0])
    ensures ToInt(Decimal(n) + rest) == n
  {
    var d := Decimal(n);
    assert (d + rest)[0] == d[0];
    LeadingDigitsOfDecimal(d, rest);
    DecimalRoundTrip(n);
  }

  /** The running vote's command names client `id` as a kick or a move to
      the spectators: a case-sensitive match of the prefix, then `atoi` of
      what follows. */
  predicate TargetsClient(command: string, id: int) {
    || (|command| >= 5 && command[..5] == "kick " && ToInt(command[5..]) == id)
    || (|command| >= 9 && command[..9] == "set_team " && ToInt(command[9..]) == id)
  }

  /** A leaving client aborts a running vote that targets it. */
  function AbortVoteKickOnDisconnect(v: VoteState, id: int): (r: VoteState)
    ensures r.closeTime == -1 || r == v
    ensures r != v <==> v.closeTime != 0 && v.closeTime != -1 && TargetsClient(v.command, id)
    ensures r.closeTime == -1 ==> v.closeTime != 0
  {
    if v.closeTime != 0 && TargetsClient(v.command, id) then v.(closeTime := -1) else v
  }

  /** The command of a kick vote, as the vote message handler formats it. */
  function KickCommand(target: nat): string {
    "kick " + Decimal(target) + " Kicked by vote"
  }

  /** The command of a vote to move a player to the spectators. */
  function SpectateCommand(target: nat, delay: nat): string {
    "set_team " + Decimal(target) + " -1 " + Decimal(delay)
  }

  /** A running kick vote is aborted by its target leaving and by no one
      else. */
  lemma KickVoteAbortsForTarget(v: VoteState, target: nat, id: int)
    requires v.closeTime != 0 && v.closeTime != -1 && v.command == KickCommand(target)
    ensures AbortVoteKickOnDisconnect(v, id).closeTime == -1 <==> id == target
  {
    KickCommandParts(target);
  }

  lemma KickCommandParts(target: nat)
    ensures var c := KickCommand(target);
            |c| >= 9 && c[..5] == "kick " && ToInt(c[5..]) == target && c[..9] != "set_team "
  {
    var rest := " Kicked by vote";
    var tail := Decimal(target) + rest;
    var c := KickCommand(target);
    assert c == "kick " + tail;
    PrefixSplit("kick ", tail);
    assert c[..9][0] != "set_team "[0];
    ToIntOfDecimal(target, rest);
  }

  /** Likewise for a vote to move a player to the spectators. */
  lemma SpectateVoteAbortsForTarget(v: VoteState, target: nat, delay: nat, id: int)
    requires v.closeTime != 0 && v.closeTime != -1 && v.command == SpectateCommand(target, delay)
    ensures AbortVoteKickOnDisconnect(v, id).closeTime == -1 <==> id == target
  {
    SpectateCommandParts(target, delay);
  }

  lemma SpectateCommandParts(target: nat, delay: nat)
    ensures var c := SpectateCommand(target, delay);
            |c| >= 9 && c[..9] == "set_team " && ToInt(c[9..]) == target && c[..5] != "kick "
  {
    var rest := " -1 " + Decimal(delay);
    var tail := Decimal(target) + rest;
    var c := SpectateCommand(target, delay);
    assert c == "set_team " + tail;
    PrefixSplit("set_team ", tail);
    assert c[..5][0] != "kick "[0];
    assert rest[0] == ' ';
    ToIntOfDecimal(target, rest);
  }

  lemma PrefixSplit(p: string, d: string)
    ensures (p + d)[..|p|] == p && (p + d)[|p|..] == d
  {
  }
}
