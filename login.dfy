/** The login server's side of live casting: the decisions taken on the first
    message of a login connection, the character list of an ordinary account,
    and the public list of live casts a spectator picks from (reached by
    logging in with an empty account name). */
module Login {
  import opened Basics
  import opened Text
  import opened Entities
  import opened Cast

  /** The client's protocol version, a 16-bit field of the first message. */
  newtype Version = x: int | 0 <= x < 0x1_0000

  // ---------------------------------------------------------------------------
  // Version-dependent constants

  /** Bytes skipped after the version field: the protocol version and the
      three file signatures, plus one zero byte from 9.71 on. */
  function HeaderSkip(version: Version): (n: nat)
    ensures n == 12 || n == 17
  {
    if version >= 971 then 17 else 12
  }

  /** The opcode of a disconnect message, which moved in 10.76. */
  function DisconnectOpcode(version: Version): (b: nat)
    ensures b == 0x0A || b == 0x0B
  {
    if version >= 1076 then 0x0B else 0x0A
  }

  /** Both constants change once, at their threshold version, and a newer
      client never gets the older value back. */
  lemma {:induction false} VersionThresholds(v: Version, w: Version)
    requires v <= w
    ensures HeaderSkip(v) <= HeaderSkip(w) && DisconnectOpcode(v) <= DisconnectOpcode(w)
    ensures HeaderSkip(970) == 12 && HeaderSkip(971) == 17
    ensures DisconnectOpcode(1075) == 0x0A && DisconnectOpcode(1076) == 0x0B
  {
  }

  // ---------------------------------------------------------------------------
  // Replies

  datatype World = World(id: nat, name: string)

  datatype Character = Character(world: nat, name: string)

  /** What the login connection sends before it is closed. */
  datatype Reply =
    | Refusal(opcode: nat, message: string)   // disconnectClient
    | Worlds(sessionKey: string, worlds: seq<World>, characters: seq<Character>, premiumDays: nat)

  function Refuse(version: Version, message: string): Reply {
    Refusal(DisconnectOpcode(version), message)
  }

  // ---------------------------------------------------------------------------
  // Character list of an ordinary account

  /** The account as the authentication check returns it. */
  datatype Account = Account(characters: seq<string>, premiumDays: nat)

  /** The number of characters as the one byte written for it. */
  function CharacterCount(n: nat): (b: nat)
    ensures b <= 255 && b <= n
    ensures b == n || b == 255
  {
    if n < 255 then n else 255
  }

  /** getCharacterList: a failed authentication (`auth` is None) is refused;
      otherwise one world, the first (at most 255) characters in account
      order, and the premium days (0xFFFF when premium is free). */
  method CharacterList(auth: Option<Account>, accountName: string, password: string,
                       serverName: string, freePremium: bool, version: Version)
    returns (reply: Reply)
    ensures auth.None? ==> reply == Refuse(version, "Account name or password is not correct.")
    ensures auth.Some? ==>
      var names := auth.value.characters;
      && reply.Worlds?
      && reply.sessionKey == accountName + "\n" + password
      && reply.worlds == [World(0, serverName)]
      && |reply.characters| == CharacterCount(|names|)
      && (forall i :: 0 <= i < |reply.characters| ==> reply.characters[i] == Character(0, names[i]))
      && reply.premiumDays == (if freePremium then 0xFFFF else auth.value.premiumDays)
  {
    if auth.None? {
      return Refuse(version, "Account name or password is not correct.");
    }
    var account := auth.value;
    var size := CharacterCount(|account.characters|);
    var characters: seq<Character> := [];
    var i := 0;
    while i < size
      invariant 0 <= i <= size
      invariant |characters| == i
      invariant forall j :: 0 <= j < i ==> characters[j] == Character(0, account.characters[j])
    {
      characters := characters + [Character(0, account.characters[i])];
      i := i + 1;
    }
    var premiumDays := if freePremium then 0xFFFF else account.premiumDays;
    reply := Worlds(accountName + "\n" + password, [World(0, serverName)], characters, premiumDays);
  }

  // ---------------------------------------------------------------------------
  // The list of live casts

  /** What the list reads of one registered cast: its player's name, its
      password (empty: not protected) and its number of spectators. */
  datatype CastInfo = CastInfo(name: string, password: string, viewers: nat)

  /** A candidate entry: viewer count and player name. */
  datatype Entry = Entry(viewers: nat, name: string)

  /** What the list reads from the registry: for each live cast, keyed by
      its player, the player's name, the password and the spectator count. */
  ghost function Snapshot(reg: Registry): (m: map<Player, CastInfo>)
    reads reg`casts, reg.casts.Values`password, reg.casts.Values`spectators
    ensures m.Keys == reg.casts.Keys
  {
    map p | p in reg.casts :: CastInfo(p.name, reg.casts[p].password, |reg.casts[p].spectators|)
  }

  /** The registry's casts, visited in the order `order` gives its keys. */
  function Infos(m: map<Player, CastInfo>, order: seq<Player>): (cs: seq<CastInfo>)
    requires forall p :: p in order ==> p in m
    ensures |cs| == |order|
  {
    if |order| == 0 then []
    else Infos(m, order[..|order| - 1]) + [m[order[|order| - 1]]]
  }

  /** `order` lists every key once: a `std::map` visit of its keys. */
  ghost predicate VisitsAll(keys: set<Player>, order: seq<Player>) {
    && |order| == |keys|
    && forall p :: p in keys ==> p in order
  }

  /** Position i of the visit describes the i-th key of `order`. */
  lemma {:induction false} InfosAt(m: map<Player, CastInfo>, order: seq<Player>, i: nat)
    requires forall p :: p in order ==> p in m
    requires i < |order|
    ensures Infos(m, order)[i] == m[order[i]]
    decreases |order|
  {
    var init := order[..|order| - 1];
    if i < |init| {
      InfosAt(m, init, i);
    }
  }

  /** Without a password every cast is shown; with one, only the protected
      casts whose password is exactly that one. */
  predicate Shown(c: CastInfo, password: string) {
    password == "" || (c.password != "" && c.password == password)
  }

  function EntryOf(c: CastInfo): Entry {
    Entry(c.viewers, c.name)
  }

  /** The entries the filtering loop collects, in visiting order. */
  function Candidates(cs: seq<CastInfo>, password: string): (es: seq<Entry>)
    ensures |es| <= |cs|
  {
    if |cs| == 0 then []
    else
      var c := cs[|cs| - 1];
      Candidates(cs[..|cs| - 1], password) + (if Shown(c, password) then [EntryOf(c)] else [])
  }

  /** Visiting one more cast adds its entry when it is shown, and nothing
      otherwise. */
  lemma {:induction false} CandidatesStep(cs: seq<CastInfo>, i: nat, password: string)
    requires i < |cs|
    ensures Candidates(cs[..i + 1], password) ==
            Candidates(cs[..i], password) + (if Shown(cs[i], password) then [EntryOf(cs[i])] else [])
  {
    assert cs[..i + 1][..i] == cs[..i];
  }

  /** An entry is collected exactly when some cast that is shown gives it. */
  lemma {:induction false} CandidatesShown(cs: seq<CastInfo>, password: string, e: Entry)
    ensures e in Candidates(cs, password) <==>
            exists i :: 0 <= i < |cs| && Shown(cs[i], password) && e == EntryOf(cs[i])
  {
    if |cs| > 0 {
      var init := cs[..|cs| - 1];
      CandidatesShown(init, password, e);
      if e in Candidates(init, password) {
        var i :| 0 <= i < |init| && Shown(init[i], password) && e == EntryOf(init[i]);
        assert cs[i] == init[i];
      }
      if exists i :: 0 <= i < |cs| && Shown(cs[i], password) && e == EntryOf(cs[i]) {
        var i :| 0 <= i < |cs| && Shown(cs[i], password) && e == EntryOf(cs[i]);
        if i < |init| {
          assert init[i] == cs[i];
        }
      }
    }
  }

  /** Without a password the list has one entry per cast, in visiting order. */
  lemma {:induction false} CandidatesAll(cs: seq<CastInfo>)
    ensures |Candidates(cs, "")| == |cs|
    ensures forall i :: 0 <= i < |cs| ==> Candidates(cs, "")[i] == EntryOf(cs[i])
  {
    if |cs| > 0 {
      var init := cs[..|cs| - 1];
      CandidatesAll(init);
      forall i | 0 <= i < |cs|
        ensures Candidates(cs, "")[i] == EntryOf(cs[i])
      {
        if i < |init| {
          assert cs[i] == init[i];
        }
      }
    }
  }

  /** Non-increasing viewer counts. */
  ghost predicate SortedByViewers(es: seq<Entry>) {
    forall i, j :: 0 <= i < j < |es| ==> es[i].viewers >= es[j].viewers
  }

  /** `e` placed before the first entry with fewer viewers than it has. */
  function Insert(e: Entry, es: seq<Entry>): (r: seq<Entry>)
    ensures |r| == |es| + 1
  {
    if |es| == 0 || e.viewers >= es[0].viewers then [e] + es
    else [es[0]] + Insert(e, es[1..])
  }

  /** The list ordered by viewer count, most viewers first. `std::sort` is not
      stable, so only the order of the counts is promised: entries with equal
      counts may come in any order (see `OrderSorted`, `OrderPermutes`). */
  function Order(es: seq<Entry>): (r: seq<Entry>)
    ensures |r| == |es|
  {
    if |es| == 0 then [] else Insert(es[0], Order(es[1..]))
  }

  lemma {:induction false} InsertPermutes(e: Entry, es: seq<Entry>)
    ensures multiset(Insert(e, es)) == multiset(es) + multiset{e}
  {
    if |es| > 0 && e.viewers < es[0].viewers {
      InsertPermutes(e, es[1..]);
      assert es == [es[0]] + es[1..];
    }
  }

  lemma {:induction false} InsertSorted(e: Entry, es: seq<Entry>)
    requires SortedByViewers(es)
    ensures SortedByViewers(Insert(e, es))
  {
    if |es| > 0 && e.viewers < es[0].viewers {
      var tail := es[1..];
      assert SortedByViewers(tail) by {
        forall i, j | 0 <= i < j < |tail| ensures tail[i].viewers >= tail[j].viewers {
          assert tail[i] == es[i + 1] && tail[j] == es[j + 1];
        }
      }
      InsertSorted(e, tail);
      var r := Insert(e, tail);
      // the head of `r` is `e` or the old second entry, both below `es[0]`
      assert r[0].viewers <= es[0].viewers by {
        if |tail| > 0 && e.viewers < tail[0].viewers {
          assert r[0] == tail[0] == es[1];
        }
      }
      var s := [es[0]] + r;
      forall i, j | 0 <= i < j < |s|
        ensures s[i].viewers >= s[j].viewers
      {
        assert s[j] == r[j - 1];
        if i > 0 {
          assert s[i] == r[i - 1];
        } else if j > 1 {
          assert r[0].viewers >= r[j - 1].viewers;
        }
      }
    }
  }

  /** The order is by viewer count, most first. */
  lemma {:induction false} OrderSorted(es: seq<Entry>)
    ensures SortedByViewers(Order(es))
  {
    if |es| > 0 {
      OrderSorted(es[1..]);
      InsertSorted(es[0], Order(es[1..]));
    }
  }

  /** Ordering neither adds, drops nor duplicates an entry. */
  lemma {:induction false} OrderPermutes(es: seq<Entry>)
    ensures multiset(Order(es)) == multiset(es)
  {
    if |es| > 0 {
      OrderPermutes(es[1..]);
      InsertPermutes(es[0], Order(es[1..]));
      assert es == [es[0]] + es[1..];
    }
  }

  /** The text shown in place of a world name: "no viewer", "1viewer" (no
      space), or the count followed by " viewers". */
  function Label(n: nat): string {
    if n == 0 then "no viewer"
    else if n == 1 then Decimal(n) + "viewer"
    else Decimal(n) + " viewers"
  }

  lemma {:induction false} LabelSamples()
    ensures Label(0) == "no viewer" && Label(1) == "1viewer" && Label(2) == "2 viewers"
  {
  }

  /** The three forms of a label are told apart by their first character and
      their length. */
  lemma {:induction false} LabelForm(n: nat)
    ensures n == 0 <==> Label(n)[0] == 'n'
    ensures n == 1 <==> |Label(n)| == 7
  {
    assert IsDigit(Decimal(n)[0]);
  }

  /** Different counts get different labels, so a label tells its count. */
  lemma {:induction false} LabelInjective(m: nat, n: nat)
    requires Label(m) == Label(n)
    ensures m == n
  {
    LabelForm(m);
    LabelForm(n);
    if m >= 2 && n >= 2 {
      var dm, dn := Decimal(m), Decimal(n);
      assert |dm| == |dn|;
      assert dm == Label(m)[..|dm|] && dn == Label(n)[..|dn|];
      DecimalInjective(m, n);
    }
  }

  /** The filtering pass of getCastingStreamsList: the registry's casts, in
      the order `order` lists its keys, that the password shows. */
  method CollectCasts(reg: Registry, order: seq<Player>, password: string)
    returns (castList: seq<Entry>)
    requires forall p :: p in order ==> p in reg.casts
    ensures castList == Candidates(Infos(Snapshot(reg), order), password)
    ensures password == "" ==> |castList| == |order|
  {
    ghost var m := Snapshot(reg);
    ghost var cs := Infos(m, order);
    castList := [];
    var havePassword := password != "";
    var i := 0;
    while i < |order|
      invariant 0 <= i <= |order|
      invariant castList == Candidates(cs[..i], password)
      invariant !havePassword ==> |castList| == i
    {
      var cast := reg.casts[order[i]];
      var entry := Entry(|cast.spectators|, order[i].name);
      assert cs[i] == CastInfo(order[i].name, cast.password, |cast.spectators|) by {
        InfosAt(m, order, i);
      }
      if havePassword {
        if cast.password != "" && cast.password == password {
          castList := castList + [entry];
        }
      } else {
        castList := castList + [entry];
      }
      CandidatesStep(cs, i, password);
      i := i + 1;
    }
    assert cs[..i] == cs;
  }

  /** Entry i of `es` is world i, named by the label of its viewer count, and
      character i on world i, named by the cast's player. */
  predicate Numbered(worlds: seq<World>, characters: seq<Character>, es: seq<Entry>) {
    && |worlds| == |es| && |characters| == |es|
    && (forall i :: 0 <= i < |es| ==> worlds[i] == World(i, Label(es[i].viewers)))
    && (forall i :: 0 <= i < |es| ==> characters[i] == Character(i, es[i].name))
  }

  /** The refusal for an empty listing names the password when one was given. */
  function NoCastMessage(password: string): string {
    if password != "" then "No cast avaliable with this password." else "No cast avaliable."
  }

  /** getCastingStreamsList over the registry, whose keys the filtering pass
      visits once each, in the order `order` lists them; `shown` is what it
      collects. The reply is built from the collected entries as
      `ListingReply` states; with no password every registered cast is
      collected, so it gets a world. */
  method CastingStreamsList(reg: Registry, order: seq<Player>, password: string, version: Version)
    returns (reply: Reply, ghost shown: seq<Entry>, ghost sorted: seq<Entry>)
    requires forall p :: p in order ==> p in reg.casts
    requires VisitsAll(reg.casts.Keys, order)
    ensures shown == Candidates(Infos(Snapshot(reg), order), password)
    ensures password == "" ==> |shown| == |reg.casts|
    ensures shown == [] ==> reply == Refuse(version, NoCastMessage(password))
    ensures shown != [] ==>
      && reply.Worlds? && reply.sessionKey == "\n" + password && reply.premiumDays == 0
      && SortedByViewers(sorted) && multiset(sorted) == multiset(shown)
      && Numbered(reply.worlds, reply.characters, sorted)
      && |reply.worlds| == |shown|
  {
    var castList := CollectCasts(reg, order, password);
    shown := castList;
    assert |order| == |reg.casts|;
    reply, sorted := ListingReply(castList, password, version);
  }

  /** The rest of getCastingStreamsList, once the entries are collected: an
      empty list is refused, with a message that depends on whether a
      password was given; otherwise the entries, most viewers first, are sent
      as numbered worlds and characters. `std::sort` is not stable, so
      `sorted` is promised only to be ordered by viewer count and a
      permutation of the collected entries: casts with equal counts may come
      in any order. */
  method ListingReply(castList: seq<Entry>, password: string, version: Version)
    returns (reply: Reply, ghost sorted: seq<Entry>)
    ensures castList == [] ==> reply == Refuse(version, NoCastMessage(password))
    ensures castList != [] ==>
      && reply.Worlds? && reply.sessionKey == "\n" + password && reply.premiumDays == 0
      && SortedByViewers(sorted) && multiset(sorted) == multiset(castList)
      && Numbered(reply.worlds, reply.characters, sorted)
      && |reply.worlds| == |castList|
  {
    sorted := [];
    if |castList| == 0 {
      reply := Refuse(version, NoCastMessage(password));
      return;
    }
    var ordered := Order(castList);
    sorted := ordered;
    var worlds: seq<World> := [];
    var world := 0;
    while world < |ordered|
      invariant 0 <= world <= |ordered|
      invariant |worlds| == world
      invariant forall j :: 0 <= j < world ==> worlds[j] == World(j, Label(ordered[j].viewers))
    {
      worlds := worlds + [World(world, Label(ordered[world].viewers))];
      world := world + 1;
    }
    var characters: seq<Character> := [];
    world := 0;
    while world < |ordered|
      invariant 0 <= world <= |ordered|
      invariant |characters| == world
      invariant forall j :: 0 <= j < world ==> characters[j] == Character(j, ordered[j].name)
    {
      characters := characters + [Character(world, ordered[world].name)];
      world := world + 1;
    }
    reply := Worlds("\n" + password, worlds, characters, 0);
    OrderSorted(castList);
    OrderPermutes(castList);
  }




  /** The list holds exactly the shown casts, each once, most viewers first;
      without a password that is one entry per registered cast. */
  lemma {:induction false} ListingContents(cs: seq<CastInfo>, password: string)
    ensures SortedByViewers(Order(Candidates(cs, password)))
    ensures multiset(Order(Candidates(cs, password))) == multiset(Candidates(cs, password))
    ensures forall e :: e in Order(Candidates(cs, password)) <==>
              exists i :: 0 <= i < |cs| && Shown(cs[i], password) && e == EntryOf(cs[i])
    ensures password == "" ==> |Order(Candidates(cs, password))| == |cs|
  {
    var shown := Candidates(cs, password);
    OrderSorted(shown);
    OrderPermutes(shown);
    forall e
      ensures e in Order(shown) <==> exists i :: 0 <= i < |cs| && Shown(cs[i], password) && e == EntryOf(cs[i])
    {
      assert e in Order(shown) <==> e in multiset(Order(shown));
      assert e in shown <==> e in multiset(shown);
      CandidatesShown(cs, password, e);
    }
    if password == "" {
      CandidatesAll(cs);
    }
  }

  // ---------------------------------------------------------------------------
  // The first message of a login connection

  /** The game states the login checks for; every other state is `Open`. */
  datatype GameState = Startup | Maintain | Shutdown | Open

  /** An IP ban as the ban store reports it; the end date comes formatted. */
  datatype BanInfo = BanInfo(until: string, bannedBy: string, reason: string)

  /** The first message once read: its version, whether its RSA block
      decrypted, and the account name and password inside that block. */
  datatype Hello = Hello(version: Version, decrypted: bool, accountName: string, password: string)

  /** The server's settings the decision depends on. */
  datatype Settings = Settings(castingEnabled: bool, minVersion: Version, maxVersion: Version, versionText: string)

  /** What becomes of the connection. */
  datatype Outcome =
    | Close                                       // closed without a reply
    | Answer(reply: Reply)                        // a refusal is sent, then closed
    | ListCasts(password: string, version: Version)
    | ListCharacters(accountName: string, password: string, version: Version)

  function VersionMessage(settings: Settings): string {
    "Only clients with protocol " + settings.versionText + " allowed!"
  }

  function BanMessage(ban: BanInfo): string {
    "Your IP has been banned until " + ban.until + " by " + ban.bannedBy
      + ".\n\nReason specified:\n" + (if ban.reason == "" then "(none)" else ban.reason)
  }

  /** onRecvFirstMessage: the checks in the order the code makes them; the
      first one that fails decides. `ban` is the IP-ban lookup. */
  function FirstMessage(state: GameState, settings: Settings, hello: Hello, ban: Option<BanInfo>): (o: Outcome)
    ensures o.Answer? ==> o.reply.Refusal? && o.reply.opcode == DisconnectOpcode(hello.version)
  {
    var v := hello.version;
    if state == Shutdown then Close
    else if v <= 760 then Answer(Refuse(v, VersionMessage(settings)))
    else if !hello.decrypted then Close
    else if v < settings.minVersion || v > settings.maxVersion then Answer(Refuse(v, VersionMessage(settings)))
    else if state == Startup then Answer(Refuse(v, "Gameworld is starting up. Please wait."))
    else if state == Maintain then Answer(Refuse(v, "Gameworld is under maintenance.\nPlease re-connect in a while."))
    else if ban.Some? then Answer(Refuse(v, BanMessage(ban.value)))
    else if hello.accountName == "" then
      if settings.castingEnabled then ListCasts(hello.password, v)
      else Answer(Refuse(v, "Invalid account name."))
    else ListCharacters(hello.accountName, hello.password, v)
  }

  /** A server shutting down closes every login at once, before reading it. */
  lemma {:induction false} ShutdownClosesFirst(settings: Settings, hello: Hello, ban: Option<BanInfo>)
    ensures FirstMessage(Shutdown, settings, hello, ban) == Close
  {
  }

  /** Clients up to 7.60 are refused before decryption is attempted, so an
      undecryptable message from one is still answered. */
  lemma {:induction false} OldClientRefusedBeforeDecryption(state: GameState, settings: Settings, hello: Hello, ban: Option<BanInfo>)
    requires state != Shutdown && hello.version <= 760
    ensures FirstMessage(state, settings, hello, ban) == Answer(Refuse(hello.version, VersionMessage(settings)))
  {
  }

  /** A list is sent exactly when every check passes: the server is open,
      the version is above 7.60 and within the supported range, the message
      decrypted and the address is not banned. Then an empty account name asks
      for the casts (when casting is enabled) and any other for the characters. */
  lemma {:induction false} ListOnlyWhenAdmitted(state: GameState, settings: Settings, hello: Hello, ban: Option<BanInfo>)
    ensures var o := FirstMessage(state, settings, hello, ban);
      var v := hello.version;
      var admitted := state == Open && 760 < v && hello.decrypted
                      && settings.minVersion <= v <= settings.maxVersion && ban.None?;
      && (o.ListCasts? <==> admitted && hello.accountName == "" && settings.castingEnabled)
      && (o.ListCharacters? <==> admitted && hello.accountName != "")
      && (o.ListCasts? ==> o == ListCasts(hello.password, v))
      && (o.ListCharacters? ==> o == ListCharacters(hello.accountName, hello.password, v))
  {
  }

  /** A banned address is told until when, by whom and why, "(none)" standing
      in for a missing reason. */
  lemma {:induction false} BanMessageNamesReason(ban: BanInfo)
    ensures var m, r := BanMessage(ban), if ban.reason == "" then "(none)" else ban.reason;
      && m[..30] == "Your IP has been banned until "
      && |m| >= |r| && m[|m| - |r|..] == r
  {
  }
}
