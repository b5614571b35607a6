/** The cast session of one player (ProtocolCaster) and the process-wide
    registry of live casts, as objects updated in place. Every state-changing
    method is proved to move the session's abstract value `State()` exactly as
    the corresponding function of `CastSpec` says, and to append exactly the
    effects that function lists. */
module Cast {
  import opened Basics
  import opened Text
  import opened Entities
  import opened Commands
  import opened CastSpec

  /** The live casts of the whole process, keyed by the player being cast,
      with a cap on how many may run at once. */
  class Registry {
    var casts: map<Player, Caster>
    const maxCount: nat

    ghost predicate Valid()
      reads this`casts
    {
      |casts| <= maxCount
    }

    constructor (maxCount: nat)
      ensures Valid() && casts == map[] && this.maxCount == maxCount
    {
      casts := map[];
      this.maxCount := maxCount;
    }

    /** `std::map::insert`: a player already present keeps its entry. */
    method Insert(p: Player, c: Caster)
      requires Valid() && |casts| < maxCount
      modifies this`casts
      ensures Valid()
      ensures casts == if p in old(casts) then old(casts) else old(casts)[p := c]
    {
      if p !in casts {
        casts := casts[p := c];
      }
    }

    method Erase(p: Player)
      requires Valid()
      modifies this`casts
      ensures Valid() && casts == old(casts) - {p}
    {
      casts := casts - {p};
    }
  }

  /** The connections `sp` are the listed spectators `vs`, entry by entry, and
      each carries the name its id gives it. */
  ghost predicate Mirrors(sp: seq<Spectator>, vs: seq<Viewer>)
    reads sp`name, sp`id
  {
    && |sp| == |vs|
    && forall i :: 0 <= i < |sp| ==>
         && vs[i] == Viewer(sp[i], sp[i].id, sp[i].address)
         && sp[i].name == SpectatorName(sp[i].id)
  }

  lemma {:induction false} MirrorsAppend(sp: seq<Spectator>, vs: seq<Viewer>, v: Spectator)
    requires Mirrors(sp, vs) && v.name == SpectatorName(v.id)
    ensures Mirrors(sp + [v], vs + [Viewer(v, v.id, v.address)])
  {
  }

  lemma {:induction false} MirrorsErase(sp: seq<Spectator>, vs: seq<Viewer>, i: nat)
    requires Mirrors(sp, vs) && i < |sp|
    ensures Mirrors(sp[..i] + sp[i + 1..], vs[..i] + vs[i + 1..])
  {
    var sp', vs' := sp[..i] + sp[i + 1..], vs[..i] + vs[i + 1..];
    forall j | 0 <= j < |sp'|
      ensures vs'[j] == Viewer(sp'[j], sp'[j].id, sp'[j].address)
      ensures sp'[j].name == SpectatorName(sp'[j].id)
    {
      if j >= i {
        assert sp'[j] == sp[j + 1] && vs'[j] == vs[j + 1];
      }
    }
  }

  /** The connection `v` is first listed at `i` (`|sp|`: not listed). */
  lemma {:induction false} MirrorsPosition(sp: seq<Spectator>, vs: seq<Viewer>, v: Spectator, i: nat)
    requires Mirrors(sp, vs) && i <= |sp|
    requires i < |sp| ==> sp[i] == v
    requires forall j :: 0 <= j < i ==> sp[j] != v
    ensures Position(vs, v) == i
  {
  }

  /** `sp` lists the connections of `vs` in order, each once. */
  ghost predicate Listed(sp: seq<Spectator>, vs: seq<Viewer>) {
    && |sp| == |vs|
    && (forall i :: 0 <= i < |sp| ==> vs[i].who == sp[i])
    && (forall j, k {:trigger Differ(sp, j, k)} :: 0 <= j < k < |sp| ==> Differ(sp, j, k))
  }

  predicate Differ(sp: seq<Spectator>, j: nat, k: nat)
    requires j < k < |sp|
  {
    sp[j] != sp[k]
  }

  /** In a well-formed state mirrored by `sp`, each connection is listed once. */
  lemma {:induction false} ListedWhenValid(sp: seq<Spectator>, s: CastState)
    requires WellFormed(s) && Mirrors(sp, s.viewers)
    ensures Listed(sp, s.viewers)
  {
    forall j, k | 0 <= j < k < |sp| ensures Differ(sp, j, k) {
      assert s.viewers[j].who == sp[j] && s.viewers[k].who == sp[k] && Apart(s.viewers, j, k);
    }
  }

  /** Erasing the entry at `i` of a list without repeats leaves its
      connection unlisted. */
  lemma {:induction false} ListedErase(sp: seq<Spectator>, vs: seq<Viewer>, i: nat)
    requires Listed(sp, vs) && i < |sp|
    ensures sp[i] !in sp[..i] + sp[i + 1..]
  {
    var rest := sp[..i] + sp[i + 1..];
    forall j | 0 <= j < |rest| ensures rest[j] != sp[i] {
      if j < i {
        assert rest[j] == sp[j] && Differ(sp, j, i);
      } else {
        assert rest[j] == sp[j + 1] && Differ(sp, i, j + 1);
      }
    }
  }

  class Caster {
    var player: Player?
    var hasConnection: bool
    var live: bool
    var spectators: seq<Spectator>
    var counter: nat
    var mutes: seq<nat>
    var bans: map<nat, string>
    var castName: string
    var password: string
    var effects: seq<Effect>
    ghost var viewers: seq<Viewer>

    ghost function State(): CastState
      reads this`live, this`viewers, this`counter, this`mutes, this`bans, this`castName, this`password
    {
      CastState(live, viewers, counter, mutes, bans, castName, password)
    }

    /** The spectator list mirrors `viewers` and the abstract state is well
        formed (ids increasing, each connection listed once). */
    ghost predicate Valid()
      reads this`viewers, this`counter, this`spectators, spectators`name, spectators`id
    {
      Ordered(viewers, counter) && Mirrors(spectators, viewers)
    }

    constructor (player: Player?, hasConnection: bool)
      ensures Valid()
      ensures this.player == player && this.hasConnection == hasConnection
      ensures !live && spectators == [] && counter == 0 && mutes == [] && bans == map[]
      ensures castName == "" && password == "" && effects == []
    {
      this.player := player;
      this.hasConnection := hasConnection;
      live := false;
      spectators := [];
      counter := 0;
      mutes := [];
      bans := map[];
      castName := "";
      password := "";
      effects := [];
      viewers := [];
    }

    /** Issue one outward action, in order after those issued before. */
    method Emit(e: Effect)
      requires Valid()
      modifies this`effects
      ensures Valid() && State() == old(State())
      ensures effects == old(effects) + [e]
    {
      effects := effects + [e];
    }

    /** startLiveCast: refused, with nothing changed, when casting is
        disabled, the cast is already live, there is no player or it has been
        removed, there is no connection, or the registry is full. Otherwise the
        session is reset and made live, registered, its row inserted and the
        cast channel opened. */
    method StartLiveCast(reg: Registry, enabled: bool, password: string) returns (ok: bool)
      requires Valid() && reg.Valid()
      modifies this`counter, this`spectators, this`viewers, this`mutes, this`bans
      modifies this`castName, this`password, this`live, this`effects, reg`casts
      ensures Valid() && reg.Valid()
      ensures ok <==> enabled && !old(live) && player != null && !player.removed
                      && hasConnection && |old(reg.casts)| < reg.maxCount
      ensures !ok ==> State() == old(State()) && spectators == old(spectators)
                      && effects == old(effects) && reg.casts == old(reg.casts)
      ensures ok ==> && State() == Started(old(State()), player.name, password)
                     && spectators == []
                     && reg.casts == (if player in old(reg.casts) then old(reg.casts)
                                      else old(reg.casts)[player := this])
                     && effects == old(effects) + [DbInsert(player.name, password != ""), OpenCastChannel]
    {
      ok := enabled && !live && player != null && !player.removed && hasConnection
            && |reg.casts| < reg.maxCount;
      if ok {
        GoLive(password);
        reg.Insert(player, this);
        Emit(DbInsert(castName, this.password != ""));
        Emit(OpenCastChannel);
      }
    }

    /** The reset startLiveCast makes past its checks. */
    method GoLive(password: string)
      requires player != null
      modifies this`counter, this`spectators, this`viewers, this`mutes, this`bans
      modifies this`castName, this`password, this`live
      ensures Valid()
      ensures State() == Started(old(State()), player.name, password)
      ensures spectators == []
    {
      counter := 0;
      spectators := [];
      viewers := [];
      mutes := [];
      bans := map[];
      castName := player.name;
      this.password := password;
      live := true;
    }

    /** stopLiveCast: nothing to do on a session that is not live. Otherwise
        the session leaves the registry, every listed spectator is visited once
        in list order (back-reference cleared, disconnected, the cast's
        reference released), the lists are emptied and the row deleted. */
    method StopLiveCast(reg: Registry) returns (ok: bool)
      requires Valid() && reg.Valid()
      modifies this`live, this`spectators, this`viewers, this`mutes, this`bans, this`effects
      modifies reg`casts, spectators`refs, spectators`watching
      ensures Valid() && reg.Valid()
      ensures ok == old(live)
      ensures !ok ==> && State() == old(State()) && spectators == old(spectators)
                      && effects == old(effects) && reg.casts == old(reg.casts)
                      && forall v :: v in old(spectators) ==> v.refs == old(v.refs) && v.watching == old(v.watching)
      ensures ok ==> && State() == Stopped(old(State()))
                     && spectators == []
                     && reg.casts == (if player == null then old(reg.casts) else old(reg.casts) - {player})
                     && effects == old(effects) + Disconnects(old(viewers))
                                   + (if player != null then [DbDelete] else [])
                     && forall v :: v in old(spectators) ==> v.refs == old(v.refs) - 1 && !v.watching
    {
      ok := live;
      if ok {
        assert Listed(spectators, viewers) by {
          ListedWhenValid(spectators, State());
        }
        GoOffline();
        // ProtocolCaster::stopLiveCast erases the registry entry before it
        // releases the spectators; nothing in the model observes the order
        if player != null {
          Emit(DbDelete);
          reg.Erase(player);
        }
      }
    }

    /** The part of stopLiveCast that swaps the list out and releases every
        spectator on it. */
    method GoOffline()
      requires Listed(spectators, viewers)
      modifies this`live, this`spectators, this`viewers, this`mutes, this`bans, this`effects
      modifies spectators`refs, spectators`watching
      ensures Valid()
      ensures State() == Stopped(old(State()))
      ensures spectators == []
      ensures effects == old(effects) + Disconnects(old(viewers))
      ensures forall v :: v in old(spectators) ==> v.refs == old(v.refs) - 1 && !v.watching
    {
      var list := spectators;
      ghost var gone := viewers;
      var out := ReleaseAll(list, gone);
      spectators := [];
      viewers := [];
      live := false;
      effects := effects + out;
      mutes := [];
      bans := map[];
    }

    /** The loop of stopLiveCast over the spectators it swapped out: each is
        told it watches nobody, disconnected and released, in list order. */
    static method ReleaseAll(list: seq<Spectator>, ghost gone: seq<Viewer>) returns (out: seq<Effect>)
      requires Listed(list, gone)
      modifies list`refs, list`watching
      ensures out == Disconnects(gone)
      ensures forall v :: v in list ==> v.refs == old(v.refs) - 1 && !v.watching
    {
      out := [];
      var i := 0;
      while i < |list|
        invariant 0 <= i <= |list|
        invariant out == Disconnects(gone[..i])
        invariant forall j :: 0 <= j < i ==> list[j].refs == old(list[j].refs) - 1 && !list[j].watching
        invariant forall j :: i <= j < |list| ==> list[j].refs == old(list[j].refs)
      {
        var v := list[i];
        assert forall j :: 0 <= j < |list| && j != i ==> list[j] != v by {
          forall j | 0 <= j < |list| && j != i
            ensures list[j] != v
          {
            if j < i {
              assert Differ(list, j, i);
            } else {
              assert Differ(list, i, j);
            }
          }
        }
        v.watching := false;
        out := out + [Disconnect(v)];
        v.refs := v.refs - 1;
        assert gone[..i + 1][..i] == gone[..i];
        i := i + 1;
      }
      assert gone[..i] == gone;
    }

    /** addSpectator: the connection gets the next id and the name that id
        gives, goes to the end of the list, and the cast takes a reference to
        it. The caller lists each connection once. */
    method AddSpectator(v: Spectator)
      requires Valid() && v !in spectators
      modifies this`counter, this`spectators, this`viewers, this`effects, v`refs, v`name, v`id
      ensures Valid()
      ensures State() == Join(old(State()), v, v.address).state
      ensures effects == old(effects) + Join(old(State()), v, v.address).out
      ensures spectators == old(spectators) + [v]
      ensures v.id == counter && v.name == SpectatorName(counter)
      ensures v.refs == old(v.refs) + 1
    {
      ghost var t := Join(State(), v, v.address).state;
      assert WellFormed(t) by {
        MirrorsPosition(spectators, viewers, v, |spectators|);
        JoinKeepsWellFormed(State(), v, v.address);
      }
      counter := counter + 1;
      spectators := spectators + [v];
      v.refs := v.refs + 1;
      v.name := SpectatorName(counter);
      v.id := counter;
      viewers := viewers + [Viewer(v, counter, v.address)];
      assert Valid() by {
        assert viewers == t.viewers && counter == t.counter;
        MirrorsAppend(old(spectators), old(viewers), v);
      }
      Emit(DbUpdate(castName, password != "", |spectators|));
    }

    /** Where `std::find` stops: the first entry for `v`, or the end. */
    method Find(v: Spectator) returns (i: nat)
      requires Valid()
      ensures i <= |spectators| && (i < |spectators| ==> spectators[i] == v)
      ensures forall j :: 0 <= j < i ==> spectators[j] != v
      ensures i == Position(viewers, v)
    {
      i := 0;
      while i < |spectators| && spectators[i] != v
        invariant 0 <= i <= |spectators|
        invariant forall j :: 0 <= j < i ==> spectators[j] != v
      {
        i := i + 1;
      }
      MirrorsPosition(spectators, viewers, v, i);
    }

    /** removeSpectator: the first entry for the connection is erased and its
        reference released; a connection that is not listed changes nothing
        but the row refresh, so removing twice is removing once. */
    method RemoveSpectator(v: Spectator)
      requires Valid()
      modifies this`spectators, this`viewers, this`effects, v`refs
      ensures Valid()
      ensures State() == Leave(old(State()), v).state
      ensures effects == old(effects) + Leave(old(State()), v).out
      ensures v !in spectators
      ensures |spectators| == |old(spectators)| - (if v in old(spectators) then 1 else 0)
      ensures v.refs == old(v.refs) - (if v in old(spectators) then 1 else 0)
    {
      var i := Find(v);
      if i < |spectators| {
        EraseAt(v, i);
      } else {
        assert Leave(State(), v).state == State() by {
          LeaveIdempotent(State(), v);
        }
      }
      Emit(DbUpdate(castName, password != "", |spectators|));
    }

    /** The erase and release of removeSpectator, for a connection found at `i`. */
    method EraseAt(v: Spectator, i: nat)
      requires Valid() && i < |spectators| && spectators[i] == v && i == Position(viewers, v)
      modifies this`spectators, this`viewers, v`refs
      ensures Valid()
      ensures State() == Leave(old(State()), v).state
      ensures spectators == old(spectators[..i] + spectators[i + 1..]) && v !in spectators
      ensures v.refs == old(v.refs) - 1
    {
      var rest := spectators[..i] + spectators[i + 1..];
      ghost var kept := viewers[..i] + viewers[i + 1..];
      assert v !in rest && Mirrors(rest, kept) by {
        ListedWhenValid(spectators, State());
        ListedErase(spectators, viewers, i);
        MirrorsErase(spectators, viewers, i);
      }
      assert WellFormed(State().(viewers := kept)) && Leave(State(), v).state == State().(viewers := kept) by {
        LeaveAt(State(), v, i);
      }
      spectators := rest;
      viewers := kept;
      v.refs := v.refs - 1;
    }

    /** getSpectatorByName: the first listed spectator whose name equals
        `name` ignoring case, or null when there is none. */
    method GetSpectatorByName(name: string) returns (r: Spectator?)
      requires Valid()
      ensures var k := FindByName(viewers, name);
        && (r == null <==> k == |viewers|)
        && (r != null ==> k < |viewers| && r == spectators[k])
    {
      var tmpName := Lower(name);
      var i := 0;
      while i < |spectators|
        invariant 0 <= i <= |spectators|
        invariant forall j :: 0 <= j < i ==> Lower(viewers[j].Name()) != tmpName
      {
        var t := spectators[i];
        if Lower(t.name) == tmpName {
          FindByNameIs(viewers, name, i);
          return t;
        }
        i := i + 1;
      }
      FindByNameIs(viewers, name, i);
      return null;
    }

    /** checkCommand: a line that does not start with '/' is not consumed and
        changes nothing. Any other line is consumed: a malformed one answers
        the caster with one status line, a well-formed one runs its command. */
    method CheckCommand(text: string) returns (consumed: bool)
      requires Valid()
      modifies this`spectators, this`viewers, this`mutes, this`bans, this`password, this`effects, spectators`refs
      ensures Valid()
      ensures consumed == IsCommand(text)
      ensures State() == Moderate(old(State()), text).state
      ensures effects == old(effects) + Moderate(old(State()), text).out
      ensures forall w :: w in old(spectators) ==>
        w.refs == old(w.refs) - (if ExpelledBy(old(State()), text) == Some(w) then 1 else 0)
      ensures forall w :: w in old(spectators) ==> w.watching == old(w.watching)
    {
      var p := Parse(text);
      consumed := !p.NotCommand?;
      if p.Run? {
        RunCommand(p.cmd);
      } else if p.NotEnoughParameters? {
        Emit(StatusMsg("Not enough parameters."));
      } else if p.InvalidCommand? {
        Emit(StatusMsg("Invalid command."));
      }
    }

    /** A parsed command, handed to the branch of checkCommand that runs it. */
    method RunCommand(c: Command)
      requires Valid()
      modifies this`spectators, this`viewers, this`mutes, this`bans, this`password, this`effects, spectators`refs
      ensures Valid()
      ensures State() == Execute(old(State()), c).state
      ensures effects == old(effects) + Execute(old(State()), c).out
      ensures forall w :: w in old(spectators) ==>
        w.refs == old(w.refs) - (if Expelled(old(State()), c) == Some(w) then 1 else 0)
      ensures forall w :: w in old(spectators) ==> w.watching == old(w.watching)
    {
      if !(c.Ban? || c.Kick?) {
        assert Expelled(State(), c) == None;
      }
      match c
      case Mute(a) => MuteCommand(a);
      case Unmute(a) => UnmuteCommand(a);
      case Ban(a) => BanCommand(a);
      case Unban(a) => UnbanCommand(a);
      case Spectators => SpectatorsCommand();
      case Password(a) => PasswordCommand(a);
      case Kick(a) => KickCommand(a);
    }

    /** /mute: the target is looked up by name ignoring case and its id is
        appended to the mute list, even when it is there already. */
    method MuteCommand(a: string)
      requires Valid()
      modifies this`mutes, this`effects
      ensures Valid()
      ensures State() == Execute(old(State()), Mute(a)).state
      ensures effects == old(effects) + Execute(old(State()), Mute(a)).out
    {
      var spectator := GetSpectatorByName(Lower(a));
      if spectator != null {
        ghost var k := FindByName(viewers, Lower(a));
        assert spectator.name == viewers[k].Name() && spectator.id == viewers[k].id;
        effects := effects + [ChannelMsg(spectator.name + " has been muted.")];
        mutes := mutes + [spectator.id];
      } else {
        Emit(NotFound);
      }
    }

    /** /unmute: the first occurrence of the target's id leaves the mute list. */
    method UnmuteCommand(a: string)
      requires Valid()
      modifies this`mutes, this`effects
      ensures Valid()
      ensures State() == Execute(old(State()), Unmute(a)).state
      ensures effects == old(effects) + Execute(old(State()), Unmute(a)).out
    {
      var spectator := GetSpectatorByName(Lower(a));
      if spectator != null {
        ghost var k := FindByName(viewers, Lower(a));
        assert spectator.name == viewers[k].Name() && spectator.id == viewers[k].id;
        effects := effects + [ChannelMsg(spectator.name + " has been unmuted.")];
        mutes := RemoveFirst(mutes, spectator.id);
      } else {
        Emit(NotFound);
      }
    }

    /** /ban: the target found by name is expelled and its address banned. */
    method BanCommand(a: string)
      requires Valid()
      modifies this`spectators, this`viewers, this`bans, this`effects, spectators`refs
      ensures Valid()
      ensures var r := Execute(old(State()), Ban(a));
        State() == r.state && effects == old(effects) + r.out
      ensures forall w :: w in old(spectators) ==>
        w.refs == old(w.refs) - (if Expelled(old(State()), Ban(a)) == Some(w) then 1 else 0)
      ensures forall w :: w in old(spectators) ==> w.watching == old(w.watching)
    {
      var spectator := GetSpectatorByName(Lower(a));
      if spectator != null {
        Expel(spectator, FindByName(viewers, Lower(a)), true);
      } else {
        Emit(NotFound);
      }
    }

    /** /unban: the records are visited in ascending address order and the
        first one whose name matches the lower-cased argument is erased. */
    method UnbanCommand(a: string)
      requires Valid()
      modifies this`bans, this`effects
      ensures Valid()
      ensures var r := Execute(old(State()), Unban(a));
        State() == r.state && effects == old(effects) + r.out
    {
      var toBan := Lower(a);
      var keys := bans.Keys;
      var found := false;
      var erased: nat := 0;
      while keys != {}
        invariant keys <= old(bans).Keys
        invariant bans == old(bans) && effects == old(effects) && !found
        invariant forall b :: b in old(bans) && b !in keys ==> old(bans)[b] != toBan
        decreases keys
      {
        LeastExists(keys);
        var b :| b in keys && IsLeast(b, keys);
        if bans[b] == toBan {
          found := true;
          erased := b;
          break;
        }
        keys := keys - {b};
      }
      if found {
        assert IsLeast(erased, BannedAs(old(bans), toBan));
        LeastIs(erased, BannedAs(old(bans), toBan));
        bans := bans - {erased};
        Emit(ChannelMsg(a + " has been unbanned."));
      } else {
        assert BannedAs(old(bans), toBan) == {};
        Emit(NotFound);
      }
    }

    /** /spectators: one line per listed spectator under a heading, or a
        single line saying there are none. */
    method SpectatorsCommand()
      requires Valid()
      modifies this`effects
      ensures Valid()
      ensures effects == old(effects) + Execute(old(State()), Spectators).out
    {
      var ss: string;
      if |spectators| > 0 {
        var lines := NameLines();
        ss := "Spectators:\n" + lines;
      } else {
        ss := "No spectators.\n";
      }
      Emit(ChannelMsg(ss));
    }

    /** The body of the /spectators reply: each listed name on a line of its
        own, in list order. */
    method NameLines() returns (ss: string)
      requires Valid()
      ensures ss == Lines(viewers)
    {
      ss := "";
      var i := 0;
      while i < |spectators|
        invariant 0 <= i <= |spectators|
        invariant ss == Lines(viewers[..i])
      {
        assert viewers[..i + 1][..i] == viewers[..i];
        ss := ss + spectators[i].name + "\n";
        i := i + 1;
      }
      assert viewers[..i] == viewers;
    }

    /** /password: the new password is stored as typed and announced. */
    method PasswordCommand(a: string)
      requires Valid()
      modifies this`password, this`effects
      ensures Valid()
      ensures var r := Execute(old(State()), Password(a));
        State() == r.state && effects == old(effects) + r.out
    {
      password := a;
      Emit(ChannelMsg("Casting new password: " + a));
    }

    /** /kick: the target found by name is expelled. */
    method KickCommand(a: string)
      requires Valid()
      modifies this`spectators, this`viewers, this`bans, this`effects, spectators`refs
      ensures Valid()
      ensures var r := Execute(old(State()), Kick(a));
        State() == r.state && effects == old(effects) + r.out
      ensures forall w :: w in old(spectators) ==>
        w.refs == old(w.refs) - (if Expelled(old(State()), Kick(a)) == Some(w) then 1 else 0)
      ensures forall w :: w in old(spectators) ==> w.watching == old(w.watching)
    {
      var spectator := GetSpectatorByName(Lower(a));
      if spectator != null {
        Expel(spectator, FindByName(viewers, Lower(a)), false);
      } else {
        Emit(NotFound);
      }
    }

    /** What /kick and /ban do to the spectator listed at `k`: announce it,
        for a ban record its address under its lower-cased name unless the
        address is already recorded, remove it, and disconnect it. */
    method Expel(v: Spectator, ghost k: nat, ban: bool)
      requires Valid() && k < |spectators| && spectators[k] == v
      modifies this`spectators, this`viewers, this`bans, this`effects, v`refs
      ensures Valid()
      ensures State() == CastSpec.Expel(old(State()), k, ban).state
      ensures effects == old(effects) + CastSpec.Expel(old(State()), k, ban).out
      ensures v.refs == old(v.refs) - 1
    {
      assert v.name == viewers[k].Name() && v.address == viewers[k].address && v == viewers[k].who;
      ghost var e0 := effects;
      var name := v.name;
      if ban {
        Emit(ChannelMsg(name + " has been banned."));
        if v.address !in bans {
          bans := bans[v.address := Lower(name)];
        }
      } else {
        Emit(ChannelMsg(name + " has been kicked."));
      }
      ghost var m := effects[|e0|];
      ghost var t := State();
      RemoveSpectator(v);
      Emit(Disconnect(v));
      AppendAssoc(e0, [m], Leave(t, v).out);
      AppendAssoc(e0, [m] + Leave(t, v).out, [Disconnect(v)]);
    }

    /** The routing part of parseSay: an over-long line is dropped; on the
        cast channel a command is handled and anything else is cast chat in
        the caster's name; any other channel is an ordinary say. */
    method ParseSay(castChannel: nat, channel: nat, text: string)
      requires Valid() && player != null
      modifies this`spectators, this`viewers, this`mutes, this`bans, this`password, this`effects, spectators`refs
      ensures Valid()
      ensures |text| > 255 ==> State() == old(State()) && effects == old(effects)
      ensures |text| <= 255 && channel == castChannel ==>
        && State() == Moderate(old(State()), text).state
        && effects == old(effects) + Moderate(old(State()), text).out
                      + (if IsCommand(text) then [] else [CastChat(player.name, text)])
      ensures |text| <= 255 && channel != castChannel ==>
        State() == old(State()) && effects == old(effects) + [GameSay(channel, text)]
      ensures forall w :: w in old(spectators) ==>
        w.refs == old(w.refs)
                  - (if |text| <= 255 && channel == castChannel && ExpelledBy(old(State()), text) == Some(w) then 1 else 0)
      ensures forall w :: w in old(spectators) ==> w.watching == old(w.watching)
    {
      if |text| > 255 {
        return;
      }
      if channel == castChannel {
        var consumed := CheckCommand(text);
        if consumed {
          return;
        }
        Emit(CastChat(player.name, text));
      } else {
        Emit(GameSay(channel, text));
      }
    }
  }
}
