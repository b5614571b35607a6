/** The objects the cast layer points at (the player being cast and the
    spectator connections), the value a cast keeps per listed spectator, and
    the records of what the cast sends to the outside world. */
module Entities {
  import opened Text

  /** The game character being cast. Only what the cast layer reads of it. */
  class Player {
    const guid: nat
    const name: string
    var removed: bool

    constructor (guid: nat, name: string)
      ensures this.guid == guid && this.name == name && !removed
    {
      this.guid := guid;
      this.name := name;
      removed := false;
    }
  }

  /** A read-only spectator connection. The cast stamps a name and an id on it
      when it is listed; `refs` counts the references the cast holds on it and
      `watching` is its back-reference to the cast's player. */
  class Spectator {
    var name: string
    var id: nat
    var refs: int
    var watching: bool
    const address: nat

    /** A connection that has logged in as a spectator and points at the
        player it wants to watch. */
    constructor (address: nat)
      ensures this.address == address && name == "" && id == 0 && refs == 0 && watching
    {
      this.address := address;
      name := "";
      id := 0;
      refs := 0;
      watching := true;
    }
  }

  /** The display name a spectator gets from its id: "Spectator(7)". */
  function SpectatorName(id: nat): string {
    "Spectator(" + Decimal(id) + ")"
  }

  /** Two ids never give display names that are equal ignoring case, so a
      case-insensitive lookup by name finds at most one spectator. */
  lemma {:induction false} SpectatorNameDistinct(a: nat, b: nat)
    requires Lower(SpectatorName(a)) == Lower(SpectatorName(b))
    ensures a == b
  {
    var da, db := Decimal(a), Decimal(b);
    var sa, sb := SpectatorName(a), SpectatorName(b);
    assert |sa| == |Lower(sa)| == |Lower(sb)| == |sb|;
    assert |da| == |db|;
    forall i | 0 <= i < |da|
      ensures da[i] == db[i]
    {
      assert sa[10 + i] == da[i] && sb[10 + i] == db[i];
      assert Lower(sa)[10 + i] == LowerChar(da[i]) == da[i];
      assert Lower(sb)[10 + i] == LowerChar(db[i]) == db[i];
    }
    DecimalInjective(a, b);
  }

  /** What the cast keeps about one listed spectator: the connection itself
      (its identity) with the id and address stamped on it. */
  datatype Viewer = Viewer(who: Spectator, id: nat, address: nat) {
    function Name(): string { SpectatorName(id) }
  }

  /** One outward action, in the order the cast issues it. */
  datatype Effect =
    | ChannelMsg(text: string)               // broadcast line on the cast channel
    | StatusMsg(text: string)                // private status line to the caster
    | Disconnect(who: Spectator)             // a spectator connection is closed
    | DbInsert(name: string, locked: bool)   // cast row created
    | DbUpdate(name: string, locked: bool, viewers: nat)
    | DbDelete                               // cast row removed
    | OpenCastChannel                        // the cast channel is opened for the caster
    | CastChat(author: string, text: string) // caster speaks on the cast channel
    | GameSay(channel: nat, text: string)    // ordinary say, handed to the game
}
