/** The state of one cast as a value, and what each session operation does to
    it: the specification the imperative `Cast.Caster` is proved against. */
module CastSpec {
  import opened Basics
  import opened Text
  import opened Entities
  import opened Commands

  datatype CastState = CastState(
    live: bool,              // the session is being cast
    viewers: seq<Viewer>,    // listed spectators, in the order they joined
    counter: nat,            // the last id handed out
    mutes: seq<nat>,         // muted spectator ids (may hold repeats)
    bans: map<nat, string>,  // banned address -> lower-cased display name
    name: string,
    password: string)        // empty: the cast is not password protected

  /** A state together with the effects that produced it, in issue order. */
  datatype Step = Step(state: CastState, out: seq<Effect>)

  /** Listed spectators carry ids from 1 up to the counter, in strictly
      increasing order, and each connection is listed once. */
  ghost predicate WellFormed(s: CastState) {
    Ordered(s.viewers, s.counter)
  }

  ghost predicate Ordered(vs: seq<Viewer>, counter: nat) {
    && (forall i :: 0 <= i < |vs| ==> 1 <= vs[i].id <= counter)
    && (forall i, j {:trigger Apart(vs, i, j)} :: 0 <= i < j < |vs| ==> Apart(vs, i, j))
  }

  /** An earlier entry has a smaller id and another connection than a later
      one. (Named, so that the pairwise fact is only drawn on where a proof
      asks for it.) */
  predicate Apart(vs: seq<Viewer>, i: nat, j: nat)
    requires i < j < |vs|
  {
    vs[i].id < vs[j].id && vs[i].who != vs[j].who
  }

  /** The row the cast keeps in the database: name, protection, spectator count. */
  function Row(s: CastState): Effect {
    DbUpdate(s.name, s.password != "", |s.viewers|)
  }

  /** Position of the connection `who` in the list, `|vs|` when it is not listed. */
  function Position(vs: seq<Viewer>, who: Spectator): (k: nat)
    ensures k <= |vs|
    ensures k < |vs| ==> vs[k].who == who
    ensures forall i :: 0 <= i < k ==> vs[i].who != who
  {
    if |vs| == 0 || vs[0].who == who then 0 else 1 + Position(vs[1..], who)
  }

  /** The list with the first entry for `who` erased. */
  function Without(vs: seq<Viewer>, who: Spectator): seq<Viewer> {
    var k := Position(vs, who);
    if k == |vs| then vs else vs[..k] + vs[k + 1..]
  }

  /** Position of the first spectator whose name equals `query` ignoring case,
      `|vs|` when there is none (see `FindByNameFirst` and `FindByNameIs`). */
  function FindByName(vs: seq<Viewer>, query: string): (k: nat)
    ensures k <= |vs|
  {
    if |vs| == 0 || Lower(vs[0].Name()) == Lower(query) then 0
    else 1 + FindByName(vs[1..], query)
  }

  /** The position found matches, and nothing before it does. */
  lemma {:induction false} FindByNameFirst(vs: seq<Viewer>, query: string)
    ensures var k := FindByName(vs, query);
      && (k < |vs| ==> Lower(vs[k].Name()) == Lower(query))
      && forall i :: 0 <= i < k ==> Lower(vs[i].Name()) != Lower(query)
  {
    if |vs| > 0 && Lower(vs[0].Name()) != Lower(query) {
      FindByNameFirst(vs[1..], query);
      var k := FindByName(vs[1..], query);
      forall i | 1 <= i < k + 1
        ensures Lower(vs[i].Name()) != Lower(query)
      {
        assert vs[i] == vs[1..][i - 1];
      }
    }
  }

  /** Conversely, the first matching position (or `|vs|` when nothing
      matches) is the one found. */
  lemma {:induction false} FindByNameIs(vs: seq<Viewer>, query: string, k: nat)
    requires k <= |vs|
    requires k < |vs| ==> Lower(vs[k].Name()) == Lower(query)
    requires forall i :: 0 <= i < k ==> Lower(vs[i].Name()) != Lower(query)
    ensures FindByName(vs, query) == k
  {
    if k > 0 {
      assert Lower(vs[0].Name()) != Lower(query);
      forall i | 0 <= i < k - 1
        ensures Lower(vs[1..][i].Name()) != Lower(query)
      {
        assert vs[1..][i] == vs[i + 1];
      }
      FindByNameIs(vs[1..], query, k - 1);
    }
  }

  /** addSpectator: the next id, appended at the end, database row refreshed. */
  function Join(s: CastState, who: Spectator, address: nat): Step {
    var t := s.(counter := s.counter + 1,
                viewers := s.viewers + [Viewer(who, s.counter + 1, address)]);
    Step(t, [Row(t)])
  }

  /** removeSpectator: erase the connection if listed; the row is refreshed
      either way. */
  function Leave(s: CastState, who: Spectator): Step {
    var t := s.(viewers := Without(s.viewers, who));
    Step(t, [Row(t)])
  }

  /** The state a successful startLiveCast leaves. */
  function Started(s: CastState, name: string, password: string): CastState {
    CastState(true, [], 0, [], map[], name, password)
  }

  /** The state a stopLiveCast of a live cast leaves. */
  function Stopped(s: CastState): CastState {
    s.(live := false, viewers := [], mutes := [], bans := map[])
  }

  /** One disconnect per listed spectator, in list order. */
  function Disconnects(vs: seq<Viewer>): (out: seq<Effect>)
    ensures |out| == |vs|
    ensures forall i :: 0 <= i < |vs| ==> out[i] == Disconnect(vs[i].who)
  {
    if |vs| == 0 then [] else Disconnects(vs[..|vs| - 1]) + [Disconnect(vs[|vs| - 1].who)]
  }

  /** One line per listed spectator name. */
  function Lines(vs: seq<Viewer>): string {
    if |vs| == 0 then "" else Lines(vs[..|vs| - 1]) + vs[|vs| - 1].Name() + "\n"
  }

  /** The text of the /spectators reply. */
  function Listing(vs: seq<Viewer>): string {
    if |vs| > 0 then "Spectators:\n" + Lines(vs) else "No spectators.\n"
  }

  const NotFound: Effect := StatusMsg("Spectator not found.")

  /** Addresses banned under the (lower-cased) name `q`. */
  function BannedAs(bans: map<nat, string>, q: string): set<nat> {
    set a | a in bans && bans[a] == q
  }

  /** What checkCommand does to the state for a line the caster types on the
      cast channel. */
  ghost function Moderate(s: CastState, text: string): Step {
    match Parse(text)
    case NotCommand => Step(s, [])
    case NotEnoughParameters => Step(s, [StatusMsg("Not enough parameters.")])
    case InvalidCommand => Step(s, [StatusMsg("Invalid command.")])
    case Run(c) => Execute(s, c)
  }

  /** A parsed command applied to the state. The broadcast of mute, ban and
      kick comes before the change; ban and kick then refresh the row (inside
      removeSpectator) and disconnect the spectator. */
  ghost function Execute(s: CastState, c: Command): Step {
    match c
    case Mute(a) =>
      var k := FindByName(s.viewers, Lower(a));
      if k == |s.viewers| then Step(s, [NotFound])
      else
        var v := s.viewers[k];
        Step(s.(mutes := s.mutes + [v.id]), [ChannelMsg(v.Name() + " has been muted.")])
    case Unmute(a) =>
      var k := FindByName(s.viewers, Lower(a));
      if k == |s.viewers| then Step(s, [NotFound])
      else
        var v := s.viewers[k];
        Step(s.(mutes := RemoveFirst(s.mutes, v.id)), [ChannelMsg(v.Name() + " has been unmuted.")])
    case Ban(a) =>
      var k := FindByName(s.viewers, Lower(a));
      if k == |s.viewers| then Step(s, [NotFound]) else Expel(s, k, true)
    case Unban(a) =>
      var hits := BannedAs(s.bans, Lower(a));
      if hits == {} then Step(s, [NotFound])
      else Step(s.(bans := s.bans - {Least(hits)}), [ChannelMsg(a + " has been unbanned.")])
    case Spectators =>
      Step(s, [ChannelMsg(Listing(s.viewers))])
    case Password(p) =>
      Step(s.(password := p), [ChannelMsg("Casting new password: " + p)])
    case Kick(a) =>
      var k := FindByName(s.viewers, Lower(a));
      if k == |s.viewers| then Step(s, [NotFound]) else Expel(s, k, false)
  }

  /** Kick and ban once the target is found at `k`: the broadcast, for a ban
      the address recorded under the lower-cased name (an address already
      recorded keeps its record), removeSpectator, and the disconnect. */
  function Expel(s: CastState, k: nat, ban: bool): Step
    requires k < |s.viewers|
  {
    var v := s.viewers[k];
    var bans := if ban && v.address !in s.bans then s.bans[v.address := Lower(v.Name())] else s.bans;
    var l := Leave(s.(bans := bans), v.who);
    var verb := if ban then " has been banned." else " has been kicked.";
    Step(l.state, [ChannelMsg(v.Name() + verb)] + l.out + [Disconnect(v.who)])
  }

  /** The connection a command takes off the list, and so releases: the
      listed target of a kick or a ban. No other command removes anyone. */
  function Expelled(s: CastState, c: Command): Option<Spectator> {
    match c
    case Ban(a) => Target(s.viewers, a)
    case Kick(a) => Target(s.viewers, a)
    case _ => None
  }

  /** The spectator a kick or ban argument names, when one is listed. */
  function Target(vs: seq<Viewer>, a: string): Option<Spectator> {
    var k := FindByName(vs, Lower(a));
    if k < |vs| then Some(vs[k].who) else None
  }

  /** The connection a moderation line takes off the list. */
  function ExpelledBy(s: CastState, text: string): Option<Spectator> {
    match Parse(text)
    case Run(c) => Expelled(s, c)
    case _ => None
  }

  // ---------------------------------------------------------------------------
  // The list of spectators

  /** Erasing a connection keeps the order of everyone else. */
  lemma {:induction false} WithoutAt(vs: seq<Viewer>, who: Spectator)
    ensures var k := Position(vs, who);
      && |Without(vs, who)| == (if k < |vs| then |vs| - 1 else |vs|)
      && forall i :: 0 <= i < |Without(vs, who)| ==>
           Without(vs, who)[i] == (if i < k then vs[i] else vs[i + 1])
  {
    var k := Position(vs, who);
    if k < |vs| {
      EraseIndex(vs, k);
    }
  }

  /** Erasing one entry keeps ids bounded and increasing and connections
      distinct. */
  lemma {:induction false} OrderedErase(vs: seq<Viewer>, counter: nat, k: nat)
    requires Ordered(vs, counter) && k < |vs|
    ensures Ordered(vs[..k] + vs[k + 1..], counter)
  {
    var ws := vs[..k] + vs[k + 1..];
    forall i | 0 <= i < |ws|
      ensures ws[i] == vs[if i < k then i else i + 1]
    {
      if i >= k {
        assert ws[i] == vs[k + 1..][i - k];
      }
    }
    forall i, j | 0 <= i < j < |ws|
      ensures Apart(ws, i, j)
    {
      var i', j' := if i < k then i else i + 1, if j < k then j else j + 1;
      assert ws[i] == vs[i'] && ws[j] == vs[j'] && Apart(vs, i', j');
    }
  }

  lemma {:induction false} WithoutKeepsWellFormed(s: CastState, who: Spectator)
    requires WellFormed(s)
    ensures WellFormed(s.(viewers := Without(s.viewers, who)))
  {
    var k := Position(s.viewers, who);
    if k < |s.viewers| {
      OrderedErase(s.viewers, s.counter, k);
    }
  }

  /** removeSpectator is idempotent: a connection that is not listed leaves the
      list as it is, and erasing a listed one leaves it unlisted, so erasing it
      again changes nothing. The counter is never turned back. */
  lemma {:induction false} LeaveIdempotent(s: CastState, who: Spectator)
    requires WellFormed(s)
    ensures Position(s.viewers, who) == |s.viewers| ==> Leave(s, who).state == s
    ensures forall v :: v in Leave(s, who).state.viewers ==> v.who != who
    ensures Leave(Leave(s, who).state, who).state == Leave(s, who).state
    ensures Leave(s, who).state.counter == s.counter
  {
    var vs, ws := s.viewers, Without(s.viewers, who);
    var k := Position(vs, who);
    WithoutAt(vs, who);
    forall i | 0 <= i < |ws|
      ensures ws[i].who != who
    {
      if i >= k {
        assert ws[i] == vs[i + 1] && Apart(vs, k, i + 1);
      }
    }
    assert Position(ws, who) == |ws|;
  }

  /** Erasing a connection listed at `i` removes exactly that entry and keeps
      the list well formed. */
  lemma {:induction false} LeaveAt(s: CastState, who: Spectator, i: nat)
    requires WellFormed(s) && i < |s.viewers| && Position(s.viewers, who) == i
    ensures Leave(s, who).state == s.(viewers := s.viewers[..i] + s.viewers[i + 1..])
    ensures WellFormed(Leave(s, who).state)
  {
    WithoutKeepsWellFormed(s, who);
  }

  /** In a well-formed list the entry at `k` is the first for its connection. */
  lemma {:induction false} PositionOfEntry(s: CastState, k: nat)
    requires WellFormed(s) && k < |s.viewers|
    ensures Position(s.viewers, s.viewers[k].who) == k
  {
    forall j | 0 <= j < k
      ensures s.viewers[j].who != s.viewers[k].who
    {
      assert Apart(s.viewers, j, k);
    }
  }

  /** addSpectator keeps the list well formed, and the id it hands out is
      larger than every id listed before. */
  lemma {:induction false} JoinKeepsWellFormed(s: CastState, who: Spectator, address: nat)
    requires WellFormed(s)
    requires Position(s.viewers, who) == |s.viewers|
    ensures WellFormed(Join(s, who, address).state)
    ensures var t := Join(s, who, address).state;
      && t.viewers[|t.viewers| - 1].id == t.counter
      && forall v :: v in s.viewers ==> v.id < t.counter
  {
    var vs := Join(s, who, address).state.viewers;
    forall i, j | 0 <= i < j < |vs|
      ensures Apart(vs, i, j)
    {
      if j < |s.viewers| {
        assert Apart(s.viewers, i, j);
      } else {
        assert s.viewers[i].who != who;
      }
    }
  }

  /** A case-insensitive lookup by display name picks out a single spectator:
      in a well-formed list no two names agree even ignoring case. */
  lemma {:induction false} FindByNameUnique(s: CastState, query: string, i: nat)
    requires WellFormed(s)
    requires i < |s.viewers| && Lower(s.viewers[i].Name()) == Lower(query)
    ensures FindByName(s.viewers, query) == i
  {
    FindByNameFirst(s.viewers, query);
    var k := FindByName(s.viewers, query);
    if k < i {
      assert Apart(s.viewers, k, i);
      SpectatorNameDistinct(s.viewers[k].id, s.viewers[i].id);
    }
  }

  // ---------------------------------------------------------------------------
  // Moderation commands

  /** Lines that are not commands, and commands that fail to parse, leave the
      cast as it is; a failed command answers the caster privately with one
      status line. */
  lemma {:induction false} RejectedLineKeepsState(s: CastState, text: string)
    requires !Parse(text).Run?
    ensures Moderate(s, text).state == s
    ensures !IsCommand(text) ==> Moderate(s, text).out == []
    ensures IsCommand(text) ==> |Moderate(s, text).out| == 1 && Moderate(s, text).out[0].StatusMsg?
  {
  }

  /** A command whose target is not listed (or, for unban, not banned) only
      answers "Spectator not found." to the caster. */
  lemma {:induction false} MissingTargetKeepsState(s: CastState, c: Command)
    requires c.TakesArgument() && !c.Password?
    requires c.Unban? ==> BannedAs(s.bans, Lower(c.Argument())) == {}
    requires !c.Unban? ==> FindByName(s.viewers, Lower(c.Argument())) == |s.viewers|
    ensures Execute(s, c) == Step(s, [NotFound])
  {
  }

  /** The connection a command releases is exactly the one that leaves the
      list: with none, the list is kept; otherwise the connection was listed
      and its first entry is erased. */
  lemma {:induction false} ExpelledLeaves(s: CastState, c: Command)
    ensures Expelled(s, c).None? ==> Execute(s, c).state.viewers == s.viewers
    ensures Expelled(s, c).Some? ==>
      var who := Expelled(s, c).value;
      && Position(s.viewers, who) < |s.viewers|
      && Execute(s, c).state.viewers == Without(s.viewers, who)
  {
    if Expelled(s, c).Some? {
      var k := FindByName(s.viewers, Lower(c.target));
      assert Position(s.viewers, s.viewers[k].who) <= k;
    }
  }

  /** The same for a whole moderation line. */
  lemma {:induction false} ExpelledByLeaves(s: CastState, text: string)
    ensures ExpelledBy(s, text).None? ==> Moderate(s, text).state.viewers == s.viewers
    ensures ExpelledBy(s, text).Some? ==>
      var who := ExpelledBy(s, text).value;
      && Position(s.viewers, who) < |s.viewers|
      && Moderate(s, text).state.viewers == Without(s.viewers, who)
  {
    if Parse(text).Run? {
      ExpelledLeaves(s, Parse(text).cmd);
    }
  }

  /** Mute appends the target's id to the mute list (even when it is already
      there) and changes nothing else; unmute takes out one occurrence. */
  lemma {:induction false} MuteTouchesOnlyMutes(s: CastState, a: string)
    requires FindByName(s.viewers, Lower(a)) < |s.viewers|
    ensures var id := s.viewers[FindByName(s.viewers, Lower(a))].id;
      var t, u := Execute(s, Mute(a)).state, Execute(s, Unmute(a)).state;
      && t == s.(mutes := t.mutes) && u == s.(mutes := u.mutes)
      && multiset(t.mutes) == multiset(s.mutes) + multiset{id}
      && multiset(u.mutes) == multiset(s.mutes) - multiset{id}
      && |t.viewers| == |s.viewers|
  {
    RemoveFirstCount(s.mutes, s.viewers[FindByName(s.viewers, Lower(a))].id);
  }

  /** Expelling the spectator at `k` erases exactly that entry (it is listed
      once, so it is gone afterwards), touches nothing but the list and the
      bans, and issues the broadcast, the row refresh and the disconnect in
      that order. */
  lemma {:induction false} ExpelErases(s: CastState, k: nat, ban: bool)
    requires WellFormed(s) && k < |s.viewers|
    ensures var v, r := s.viewers[k], Expel(s, k, ban);
      && r.state.viewers == s.viewers[..k] + s.viewers[k + 1..]
      && v !in r.state.viewers
      && r.state.bans == (if ban && v.address !in s.bans then s.bans[v.address := Lower(v.Name())] else s.bans)
      && r.state == s.(viewers := r.state.viewers, bans := r.state.bans)
      && r.out == [ChannelMsg(v.Name() + (if ban then " has been banned." else " has been kicked.")),
                   Row(r.state), Disconnect(v.who)]
  {
    var v := s.viewers[k];
    var bans := if ban && v.address !in s.bans then s.bans[v.address := Lower(v.Name())] else s.bans;
    var s1 := s.(bans := bans);
    assert WellFormed(s1);
    PositionOfEntry(s1, k);
    LeaveAt(s1, v.who, k);
    LeaveIdempotent(s1, v.who);
  }

  /** Kick erases exactly the spectator found by name and keeps everyone else
      in order; the broadcast comes first and the disconnect of that
      spectator last. */
  lemma {:induction false} KickRemovesTarget(s: CastState, a: string)
    requires WellFormed(s)
    requires FindByName(s.viewers, Lower(a)) < |s.viewers|
    ensures var k := FindByName(s.viewers, Lower(a));
      var v, r := s.viewers[k], Execute(s, Kick(a));
      && r.state == s.(viewers := s.viewers[..k] + s.viewers[k + 1..])
      && |r.state.viewers| == |s.viewers| - 1
      && v !in r.state.viewers
      && r.out[0] == ChannelMsg(v.Name() + " has been kicked.")
      && r.out[|r.out| - 1] == Disconnect(v.who)
  {
    var k := FindByName(s.viewers, Lower(a));
    ExpelErases(s, k, false);
    assert Execute(s, Kick(a)) == Expel(s, k, false);
  }

  /** Ban does what kick does and also records the spectator's address under
      its lower-cased name; an address that is already banned keeps its old
      record. Nobody else's record changes. */
  lemma {:induction false} BanRecordsAddress(s: CastState, a: string)
    requires WellFormed(s)
    requires FindByName(s.viewers, Lower(a)) < |s.viewers|
    ensures var k := FindByName(s.viewers, Lower(a));
      var v, r := s.viewers[k], Execute(s, Ban(a));
      && r.state.viewers == s.viewers[..k] + s.viewers[k + 1..]
      && v !in r.state.viewers
      && r.state.bans.Keys == s.bans.Keys + {v.address}
      && r.state.bans[v.address] == (if v.address in s.bans then s.bans[v.address] else Lower(v.Name()))
      && (forall addr :: addr in s.bans ==> r.state.bans[addr] == s.bans[addr])
      && r.state == s.(viewers := r.state.viewers, bans := r.state.bans)
      && r.out[|r.out| - 1] == Disconnect(v.who)
  {
    var k := FindByName(s.viewers, Lower(a));
    ExpelErases(s, k, true);
    assert Execute(s, Ban(a)) == Expel(s, k, true);
  }

  /** Unban erases the record with the smallest address among those banned
      under the lower-cased name, and only that one; it does not list anyone
      again. */
  lemma {:induction false} UnbanErasesOneRecord(s: CastState, a: string)
    requires BannedAs(s.bans, Lower(a)) != {}
    ensures var r := Execute(s, Unban(a)).state;
      exists addr :: addr in s.bans && s.bans[addr] == Lower(a)
        && (forall b :: b in s.bans && s.bans[b] == Lower(a) ==> addr <= b)
        && r.bans.Keys == s.bans.Keys - {addr}
        && (forall b :: b in r.bans ==> r.bans[b] == s.bans[b])
        && r == s.(bans := r.bans)
  {
    var hits := BannedAs(s.bans, Lower(a));
    var addr := Least(hits);
    var r := Execute(s, Unban(a)).state;
    assert r == s.(bans := s.bans - {addr});
    assert addr in s.bans && s.bans[addr] == Lower(a);
    assert forall b :: b in s.bans && s.bans[b] == Lower(a) ==> b in hits;
    assert r.bans.Keys == s.bans.Keys - {addr};
  }

  /** /password stores its argument as typed (case kept) and issues no
      database update, so the stored row still shows the old protection. */
  lemma {:induction false} PasswordKeptAsTyped(s: CastState, p: string)
    ensures var r := Execute(s, Password(p));
      && r.state == s.(password := p)
      && forall e :: e in r.out ==> !e.DbUpdate?
  {
  }

  /** Every moderation line keeps the spectator list well formed and never
      touches the id counter, the live flag or the cast name. */
  lemma {:induction false} ModerateKeepsWellFormed(s: CastState, text: string)
    requires WellFormed(s)
    ensures var t := Moderate(s, text).state;
      WellFormed(t) && t.counter == s.counter && t.live == s.live && t.name == s.name
  {
    if Parse(text).Run? {
      ExecuteKeepsWellFormed(s, Parse(text).cmd);
    }
  }

  lemma {:induction false} ExecuteKeepsWellFormed(s: CastState, c: Command)
    requires WellFormed(s)
    ensures var t := Execute(s, c).state;
      WellFormed(t) && t.counter == s.counter && t.live == s.live && t.name == s.name
  {
    ExecuteKeepsCounter(s, c);
    var t := Execute(s, c).state;
    if c.Kick? || c.Ban? {
      var k := FindByName(s.viewers, Lower(c.Argument()));
      if k < |s.viewers| {
        assert t.viewers == Without(s.viewers, s.viewers[k].who);
        WithoutKeepsWellFormed(s, s.viewers[k].who);
      }
    } else {
      assert t.viewers == s.viewers && t.counter == s.counter;
    }
  }

  // ---------------------------------------------------------------------------
  // Ids over a whole cast

  /** What can happen to a live cast between its start and its stop. */
  datatype Op =
    | Joins(who: Spectator, address: nat)
    | Leaves(who: Spectator)
    | Says(text: string)

  ghost function Apply(s: CastState, op: Op): CastState {
    match op
    case Joins(who, address) => Join(s, who, address).state
    case Leaves(who) => Leave(s, who).state
    case Says(text) => Moderate(s, text).state
  }

  ghost function Replay(s: CastState, ops: seq<Op>): CastState
    decreases |ops|
  {
    if |ops| == 0 then s else Replay(Apply(s, ops[0]), ops[1..])
  }

  /** The ids handed out by the joins of `ops`, in order. */
  ghost function Issued(s: CastState, ops: seq<Op>): seq<nat>
    decreases |ops|
  {
    if |ops| == 0 then []
    else
      var rest := Issued(Apply(s, ops[0]), ops[1..]);
      if ops[0].Joins? then [s.counter + 1] + rest else rest
  }

  /** Within one cast, ids are handed out in strictly increasing order and
      never twice, whatever leaves, kicks and bans come between the joins:
      each is larger than every id handed out before it, and the counter ends
      at the last one. */
  lemma {:induction false} IdsNeverReused(s: CastState, ops: seq<Op>)
    ensures var ids := Issued(s, ops);
      && (forall i, j :: 0 <= i < j < |ids| ==> ids[i] < ids[j])
      && (forall i :: 0 <= i < |ids| ==> s.counter < ids[i] <= Replay(s, ops).counter)
      && Replay(s, ops).counter == s.counter + |ids|
    decreases |ops|
  {
    if |ops| > 0 {
      if ops[0].Says? {
        ModerateKeepsCounter(s, ops[0].text);
      }
      IdsNeverReused(Apply(s, ops[0]), ops[1..]);
    }
  }

  lemma {:induction false} ModerateKeepsCounter(s: CastState, text: string)
    ensures Moderate(s, text).state.counter == s.counter
  {
    if Parse(text).Run? {
      ExecuteKeepsCounter(s, Parse(text).cmd);
    }
  }

  lemma {:induction false} ExecuteKeepsCounter(s: CastState, c: Command)
    ensures var t := Execute(s, c).state;
      t.counter == s.counter && t.live == s.live && t.name == s.name
  {
  }
}
