# Live casting: a verified model

A game server lets a player broadcast their session ("live cast") to any number of read-only spectator connections. The caster moderates the audience with chat commands typed on the cast channel:

- `/mute` and `/unmute`;
- `/ban` and `/unban`;
- `/kick`;
- `/spectators`;
- `/password`.

The login server lists the running casts publicly, most viewers first, to anyone who logs in with an empty account name.

The project models two components of the server:

- **The cast session and the process-wide registry of live casts**, as objects updated in place:
  - `Cast.Caster` and `Cast.Registry` in `caster.dfy`;
  - the `Entities.Spectator` connections, which carry a name, an id, a reference count and a back-reference to the cast.
- **The login server's side of casting**, in `login.dfy`:
  - the cast listing (filter, order by viewer count, labels, numbering);
  - the decision chain applied to the first message of a login connection;
  - the version-dependent constants;
  - the character list of an ordinary account.

Every state-changing method of `Cast.Caster` is proved against a specification function of `CastSpec` (`cast_spec.dfy`). Each such function works on a value `CastState` that holds:

- the live flag;
- the listed spectators, in join order;
- the id counter;
- the mute list;
- the ban map, from address to lower-cased name;
- the cast name and the password.

A method's `ensures` states that the new `State()` is what the function computes from the old one, and that the effects log grew by exactly the effects the function lists. The properties of those functions are proved as lemmas.

Outward actions are records appended to an `effects` log, in the order the code issues them:

- channel broadcasts and status lines;
- disconnects;
- database insert, update and delete;
- opening of the cast channel;
- cast chat;
- an ordinary game say.

The remaining files are:

- `commands.dfy`: the parser for the moderation commands;
- `text.dfy`: ASCII lower-casing, split at the first separator, and decimal rendering;
- `basics.dfy`: `Option` and sequence helpers.

Assumptions about code that is not part of this model:

- `toLowerCaseString` lower-cases ASCII letters only.
- `explodeString(s, " ", 1)` splits at the first space into at most two parts.
- `getSpectatorCount` is the length of the spectator list.
- `isPasswordProtected` holds when the password is non-empty.
- `getMaxLiveCastCount`, `CHANNEL_CAST`, `CLIENT_VERSION_MIN`/`MAX`/`STR` and `ENABLE_LIVE_CASTING` are parameters of the model.
- The ban map is a `std::map` keyed by address, so `/unban` visits addresses in ascending order.

## Model

| member | source | states |
|---|---|---|
| Cast.Registry.constructor | src/protocolcaster.cpp:47 | the registry starts empty, with its cap |
| Cast.Registry.Insert | src/protocolcaster.cpp:349 | `std::map::insert`: a player already present keeps its entry, otherwise the player is added; the cap keeps holding |
| Cast.Registry.Erase | src/protocolcaster.cpp:368 | the player's entry, if any, is removed and nothing else |
| Cast.Caster.constructor | src/protocolcaster.cpp:49-53 | a new session is not live and has empty lists, counter 0, empty name and password |
| Cast.Caster.Emit | src/protocolcaster.cpp:147 | an outward action is appended after those already issued, and the session state is unchanged |
| Cast.Caster.StartLiveCast | src/protocolcaster.cpp:327-356 | succeeds exactly when casting is enabled, the session is not live, the player exists and is not removed, there is a connection and fewer than the maximum casts run. On failure nothing changes. On success the session is reset as `Started` says, the player is registered (the cap still holds), then the row is inserted and the channel opened |
| Cast.Caster.GoLive | src/protocolcaster.cpp:340-348 | the counter is 0; spectators, mutes and bans are empty; the name is the player's; the password is the given one; the session is live |
| Cast.Caster.StopLiveCast | src/protocolcaster.cpp:358-385 | returns whether the session was live. If it was not, nothing changes. If it was: the registry entry is erased; every listed spectator loses the cast's reference, its back-reference and its connection, once each and in list order; the lists are emptied; the row is deleted when there is a player |
| Cast.Caster.GoOffline | src/protocolcaster.cpp:364-378 | the list is swapped out and emptied; each former spectator is disconnected and released exactly once; mutes and bans are cleared |
| Cast.Caster.ReleaseAll | src/protocolcaster.cpp:370-374 | the loop over the swapped-out list yields one disconnect per spectator in list order, and each spectator's reference count drops by exactly one |
| Cast.Caster.AddSpectator | src/protocolcaster.cpp:422-436 | the counter grows by one; the connection is appended with id = counter and name "Spectator(id)"; it takes one reference; the row is refreshed; the list stays well formed (`Join`) |
| Cast.Caster.Find | src/protocolcaster.cpp:441 | `std::find`: the first position of the connection, or the end when it is not listed |
| Cast.Caster.RemoveSpectator | src/protocolcaster.cpp:438-447 | only the first entry for the connection is erased, and a reference is released only when one was found; an absent connection leaves list and references unchanged; the row is refreshed either way |
| Cast.Caster.EraseAt | src/protocolcaster.cpp:442-445 | the entry found is erased, everyone else keeps their order, and the reference is released |
| Cast.Caster.GetSpectatorByName | src/protocolcaster.cpp:449-462 | returns the first listed spectator whose name equals the query ignoring case, and null exactly when there is none |
| Cast.Caster.CheckCommand | src/protocolcaster.cpp:124-274 | a line is consumed exactly when it starts with '/'; state and effects follow `Moderate`. The connection a kick or ban takes off the list (`ExpelledBy`) loses exactly one reference; every other connection keeps its reference count and its back-reference |
| Cast.Caster.RunCommand | src/protocolcaster.cpp:134-267 | a parsed command changes state and effects as `Execute` says; the connection it expels (`Expelled`), and no other, loses one reference, and no back-reference changes |
| Cast.Caster.MuteCommand | src/protocolcaster.cpp:134-161 | a found target is announced first, then its id is appended to the mute list (duplicates allowed); a missing target gets "Spectator not found." and nothing changes |
| Cast.Caster.UnmuteCommand | src/protocolcaster.cpp:150-157 | a found target is announced, then the first occurrence of its id leaves the mute list |
| Cast.Caster.BanCommand | src/protocolcaster.cpp:182-196 | a found target is announced, its address recorded, removed and disconnected (`Expel` with ban), and it loses exactly one reference; otherwise "Spectator not found.". No other connection's reference count or back-reference changes |
| Cast.Caster.UnbanCommand | src/protocolcaster.cpp:197-212 | the loop over addresses in ascending order erases the first record whose name equals the lower-cased argument and announces the argument as typed; otherwise "Spectator not found." with bans unchanged |
| Cast.Caster.SpectatorsCommand | src/protocolcaster.cpp:216-227 | broadcasts a heading and one line per listed name, or "No spectators."; no state changes |
| Cast.Caster.NameLines | src/protocolcaster.cpp:220-222 | the loop yields each listed name followed by a newline, in list order |
| Cast.Caster.PasswordCommand | src/protocolcaster.cpp:238-240 | the password is stored as typed and announced; no row update is issued |
| Cast.Caster.KickCommand | src/protocolcaster.cpp:244-264 | a found target is announced, removed and disconnected (`Expel` without ban), and it loses exactly one reference; otherwise "Spectator not found.". No other connection's reference count or back-reference changes |
| Cast.Caster.Expel | src/protocolcaster.cpp:183-193 | in this order: the broadcast; for a ban, the address recorded under the lower-cased name unless already recorded; removeSpectator, which releases the connection's reference; the disconnect |
| Cast.Caster.ParseSay | src/protocolcaster.cpp:299-312 | a text over 255 characters is dropped. On the cast channel a command is handled and anything else becomes cast chat in the player's name. On any other channel the text is a game say with no state change. Only a kick or ban on the cast channel releases a reference, that of the connection it expels; no back-reference changes |
| CastSpec.Position | src/protocolcaster.cpp:441 | the index found holds the connection and no earlier index does |
| CastSpec.FindByName | src/protocolcaster.cpp:454-461 | the index is at most the list length |
| CastSpec.FindByNameFirst | src/protocolcaster.cpp:454-461 | the index found matches ignoring case, and no earlier entry does |
| CastSpec.FindByNameIs | src/protocolcaster.cpp:454-462 | conversely, the first matching index, or the length when nothing matches, is the one found |
| CastSpec.Disconnects | src/protocolcaster.cpp:370-373 | one disconnect per listed spectator, in list order |
| CastSpec.WithoutAt | src/protocolcaster.cpp:441-443 | erasing removes exactly the first entry for the connection and keeps the order of the others |
| CastSpec.OrderedErase | src/protocolcaster.cpp:443 | erasing one entry keeps ids bounded by the counter, strictly increasing and on distinct connections |
| CastSpec.WithoutKeepsWellFormed | src/protocolcaster.cpp:438-447 | removeSpectator keeps the list well formed |
| CastSpec.LeaveIdempotent | src/protocolcaster.cpp:438-447 | removing an absent connection changes nothing; after a removal the connection is unlisted, so a second removal changes nothing; the counter is never turned back |
| CastSpec.LeaveAt | src/protocolcaster.cpp:441-445 | removing a connection listed at i erases exactly entry i |
| CastSpec.PositionOfEntry | src/protocolcaster.cpp:441 | in a well-formed list each entry is the first for its connection |
| CastSpec.JoinKeepsWellFormed | src/protocolcaster.cpp:425-433 | addSpectator keeps the list well formed, and the new id is the counter and larger than every listed id |
| CastSpec.FindByNameUnique | src/protocolcaster.cpp:449-462 | in a well-formed list at most one spectator matches a name ignoring case, so the lookup finds that one |
| CastSpec.RejectedLineKeepsState | src/protocolcaster.cpp:124-274 | a non-command, or a command missing its argument or with an unknown word, leaves the state unchanged. A non-command issues nothing; the others issue one status line |
| CastSpec.MissingTargetKeepsState | src/protocolcaster.cpp:159-161 | a command whose target is not listed (for unban: not banned) only answers "Spectator not found." |
| CastSpec.MuteTouchesOnlyMutes | src/protocolcaster.cpp:146-157 | mute adds one occurrence of the id and unmute takes one out; nothing but the mute list changes, and the spectator list keeps its length |
| CastSpec.KickRemovesTarget | src/protocolcaster.cpp:254-258 | kick erases exactly the spectator found, keeps everyone else in order, broadcasts first and disconnects that spectator last |
| CastSpec.ExpelledLeaves | src/protocolcaster.cpp:183-193 | a command that expels no one leaves the list as it was; a kick or ban that expels a connection finds it listed and erases its first entry and nothing else |
| CastSpec.ExpelledByLeaves | src/protocolcaster.cpp:124-274 | the same for a whole moderation line: only a kick or ban line takes a connection off the list, and only that one |
| CastSpec.ExpelErases | src/protocolcaster.cpp:183-193 | expelling the spectator at a position erases exactly that entry, records the address only for a ban of an unrecorded address, and emits the broadcast, the row refresh and the disconnect in that order |
| CastSpec.BanRecordsAddress | src/protocolcaster.cpp:183-193 | ban erases the target as kick does. It records the target's address under its lower-cased name; an existing record for that address is kept, and no other record changes |
| CastSpec.UnbanErasesOneRecord | src/protocolcaster.cpp:197-205 | unban erases the record with the smallest address among those under the lower-cased name, and only that one |
| CastSpec.PasswordKeptAsTyped | src/protocolcaster.cpp:228-240 | the password is stored with its case kept and no database update is issued |
| CastSpec.ModerateKeepsWellFormed | src/protocolcaster.cpp:124-274 | every moderation line keeps the list well formed and never changes the counter, the live flag or the name |
| CastSpec.ExecuteKeepsWellFormed | src/protocolcaster.cpp:134-267 | the same for each parsed command |
| CastSpec.IdsNeverReused | src/protocolcaster.cpp:425-433 | over any sequence of joins, leaves and moderation lines, the ids handed out increase strictly, each exceeds every earlier one, and the counter ends at the last |
| CastSpec.ModerateKeepsCounter | src/protocolcaster.cpp:124-274 | no moderation line changes the id counter |
| CastSpec.ExecuteKeepsCounter | src/protocolcaster.cpp:134-267 | no command changes the counter, the live flag or the name |
| Commands.WithArgument | src/protocolcaster.cpp:134 | the command built carries the word and the argument |
| Commands.Parse | src/protocolcaster.cpp:126-136 | a line is a command exactly when it starts with '/'; a command that runs always has a non-empty argument |
| Commands.ParseRender | src/protocolcaster.cpp:128-132 | every well-formed command is parsed back from the line that types it, spaces inside the argument included |
| Commands.ParseIgnoresWordCase | src/protocolcaster.cpp:130 | the command word is compared ignoring case |
| Commands.MissingArgument | src/protocolcaster.cpp:135-142 | a command word typed without an argument, or with an empty one, yields "Not enough parameters." |
| Commands.UnknownWord | src/protocolcaster.cpp:265-267 | an unknown word is "Invalid command." whatever follows it |
| Text.LowerChar | src/protocolcaster.cpp:130 | only upper-case ASCII letters change, by 32 |
| Text.Lower | src/protocolcaster.cpp:452 | the length is kept and each character is lower-cased |
| Text.LowerIdempotent | src/protocolcaster.cpp:452-456 | lower-casing twice is lower-casing once |
| Text.LowerAppend | src/protocolcaster.cpp:452-456 | lower-casing distributes over concatenation |
| Text.LowerFixed | src/protocolcaster.cpp:130 | a string with no upper-case letter is its own lower case |
| Text.FindChar | src/protocolcaster.cpp:128 | the first position of the separator, or the end |
| Text.SplitFirst | src/protocolcaster.cpp:128 | at most two parts; one part exactly when there is no separator; two parts joined by the separator give the input back, and the first part has no separator |
| Text.SplitFirstJoin | src/protocolcaster.cpp:128 | a word without the separator, the separator and a rest split back into the word and the rest |
| Text.Decimal | src/protocolcaster.cpp:430 | at least one digit, all digits, no leading zero |
| Text.DecimalRoundTrip | src/protocolcaster.cpp:430 | reading the rendering back gives the number |
| Text.DecimalInjective | src/protocolcaster.cpp:430 | different numbers render differently |
| Entities.Spectator.constructor | src/protocolspectator.h:35 | a new connection is unnamed, unreferenced and points at the player it watches |
| Entities.SpectatorNameDistinct | src/protocolcaster.cpp:429-433 | two ids never give display names that are equal ignoring case |
| Basics.IndexOf | src/protocolcaster.cpp:153 | `std::find`: the first position of the value, or the end exactly when the value is absent |
| Basics.RemoveFirst | src/protocolcaster.cpp:153-156 | the result is never longer than the input |
| Basics.RemoveFirstCount | src/protocolcaster.cpp:153-156 | erasing a value that occurs removes exactly one occurrence; an absent value leaves the list unchanged |
| Basics.RemoveFirstAt | src/protocolcaster.cpp:153-156 | everything but the erased element keeps its order |
| Basics.EraseIndex | src/protocolcaster.cpp:443 | erasing the element at a position shifts everything after it down by one and keeps everything before it |
| Basics.Least | src/protocolcaster.cpp:199-204 | the smallest address of a non-empty set, the first a `std::map` visits |
| Basics.LeastExists | src/protocolcaster.cpp:199-204 | every non-empty finite set of addresses has a smallest element |
| Basics.LeastIs | src/protocolcaster.cpp:199-204 | the smallest element is unique |
| Login.HeaderSkip | src/protocollogin.cpp:213-217 | the header skip is 12 or 17 bytes |
| Login.DisconnectOpcode | src/protocollogin.cpp:44 | the disconnect opcode is 0x0A or 0x0B |
| Login.VersionThresholds | src/protocollogin.cpp:44 | 17 bytes from version 971 on and 12 before; opcode 0x0B from 1076 on and 0x0A before; both never decrease with the version |
| Login.CharacterCount | src/protocollogin.cpp:87 | the count written is min(255, number of characters) |
| Login.CharacterList | src/protocollogin.cpp:52-108 | failed authentication is refused with "Account name or password is not correct.". Otherwise: the session key is account name, newline, password; there is one world with id 0 and the server name; the first min(255, n) characters come in account order; premium is 0xFFFF when free, else the account's days |
| Login.Snapshot | src/protocollogin.cpp:110-120 | the registry read as values has exactly the registry's keys |
| Login.Infos | src/protocollogin.cpp:115-122 | the visit yields one record per key visited |
| Login.InfosAt | src/protocollogin.cpp:115-122 | the i-th record of the visit describes the i-th key visited: its player's name, password and spectator count |
| Login.Candidates | src/protocollogin.cpp:113-123 | the filtering pass keeps at most one entry per cast |
| Login.CandidatesShown | src/protocollogin.cpp:116-121 | an entry is collected exactly when some cast is shown. With a password, only protected casts with that exact password are shown; without one, every cast is shown |
| Login.CandidatesStep | src/protocollogin.cpp:116-122 | visiting one more cast appends its entry exactly when it is shown, and nothing otherwise |
| Login.CandidatesAll | src/protocollogin.cpp:120-121 | with an empty password there is one entry per cast, in visiting order |
| Login.Insert | src/protocollogin.cpp:135-138 | inserting grows the list by one |
| Login.Order | src/protocollogin.cpp:135-138 | ordering keeps the length |
| Login.InsertPermutes | src/protocollogin.cpp:135-138 | insertion adds exactly the one entry |
| Login.InsertSorted | src/protocollogin.cpp:135-138 | insertion into a list ordered by viewers, most first, keeps it ordered |
| Login.OrderSorted | src/protocollogin.cpp:135-138 | the ordered list has non-increasing viewer counts |
| Login.OrderPermutes | src/protocollogin.cpp:135-138 | the ordered list is a permutation of the filtered one |
| Login.LabelSamples | src/protocollogin.cpp:170-175 | the labels are "no viewer", "1viewer" (no space) and "2 viewers" |
| Login.LabelForm | src/protocollogin.cpp:170-175 | only 0 gives the label starting with 'n' and only 1 gives a 7-character label |
| Login.LabelInjective | src/protocollogin.cpp:170-175 | different counts give different labels |
| Login.CollectCasts | src/protocollogin.cpp:113-123 | the filtering loop collects the entries `Candidates` gives, in visiting order |
| Login.CastingStreamsList | src/protocollogin.cpp:108-199 | with the registry's keys visited once each, the collected entries are those `Candidates` gives; with no password every registered cast is collected and gets a world. An empty listing is refused with the password or no-password message. Otherwise the session key is newline plus password, premium is 0, and the worlds come from an ordering of the collected entries that is sorted by viewers, most first, and a permutation of them: entry i becomes world i, labelled by its viewer count, and character i on world i, named by its player |
| Login.ListingReply | src/protocollogin.cpp:125-199 | the same reply built from the collected entries: refused when empty, otherwise one world per entry, numbered in an order sorted by viewers and a permutation of the entries; ties may come in any order |
| Login.ListingContents | src/protocollogin.cpp:113-138 | the listing holds exactly the shown casts, each as often as it was collected, most viewers first; with no password there is one entry per cast |
| Login.FirstMessage | src/protocollogin.cpp:203-286 | every refusal carries the disconnect opcode of the client's version |
| Login.ShutdownClosesFirst | src/protocollogin.cpp:205-208 | during shutdown the connection is closed before anything is read |
| Login.OldClientRefusedBeforeDecryption | src/protocollogin.cpp:227-235 | a client up to 7.60 is refused with the version message even when its RSA block would not decrypt |
| Login.ListOnlyWhenAdmitted | src/protocollogin.cpp:227-286 | a list is requested exactly when the state is open, the version is above 760 and in range, the block decrypted and the address is not banned. An empty account name then asks for the casts if casting is enabled; any other name asks for its characters |
| Login.BanMessageNamesReason | src/protocollogin.cpp:262-268 | the ban message starts with "Your IP has been banned until " and ends with the reason, or "(none)" when the reason is empty |

## Left out

- Byte layouts are not modelled: message framing, the MOTD, IP and port fields, and the opcodes 0x14, 0x28 and 0x64. Replies are abstract `Reply` values, and the header skip and disconnect opcode are modelled only as constants.
- Login.CastingStreamsList: `addByte(castList.size())` and `addByte(world)` truncate to one byte above 255 casts. The model keeps unbounded counts and ids.
- Login.CharacterList: `add<uint16_t>(account.premiumDays)` is not truncated to 16 bits, and `Game::updatePremium` is not part of this model.
- SQL text is left out. `registerLiveCast`, `unregisterLiveCast` and `updateLiveCastInfo` become `DbInsert`, `DbDelete` and `DbUpdate` effects. `clearLiveCastInfo` is a one-time start-up delete guarded by `std::call_once` and is left out.
- Threading is left out. Hand-offs through `g_dispatcher.addTask` and `addGameTask` happen immediately, in program order.
- Cryptography, authentication and the ban store are inputs of the model:
  - `Protocol::RSA_decrypt` is `Hello.decrypted`;
  - the XTEA key setup is dropped;
  - `IOLoginData::loginserverAuthentication` is `Option<Account>`;
  - `IOBan::isIpBanned` is `Option<BanInfo>`, with the date already formatted (`formatDateShort` is not part of this model).
- Game states other than startup, maintenance and shutdown are one state, `Open`; game.h is not part of this model.
- Login.CastingStreamsList: the iteration order of the registry `std::map` is the `order` parameter, which lists every key once. The reply is promised to be sorted by viewers and a permutation of the collected entries, as `std::sort` is; the model computes it with an insertion sort on values, and its contract leaves the order of ties unspecified.
- Cast.Caster.AddSpectator requires that the connection is not listed yet; the caller (spectator login) ensures this and is not part of this model.
- Cast.Caster.ParseSay requires a player, as `ProtocolCaster::parseSay` dereferences it. The decoding of the talk type, receiver and channel from the packet is left out; the channel is a parameter.
- Cast.Caster.ParseSay: the 255 limit of `text.length()` counts bytes. The model counts characters, one character standing for one byte of the text.
- Cast.Caster.SpectatorsCommand states the effects appended but not the session state; the state is left unchanged, as its modifies frame shows.
- CastSpec.IdsNeverReused: spectator ids and the id counter are unbounded `nat`s. The source stores them as `uint32_t` (src/protocolspectator.h:45, 60), so the property holds only for fewer than 2^32 joins; wrap-around is not modelled.
- Cast.Registry.Insert requires room under the cap; its only caller checks this first.
- The listed spectators are a ghost sequence of `Viewer` values that mirrors the `Spectator` objects, so that the specification can talk about values. Aliasing between two sessions' spectator lists is not modelled.
- `logout`, `parsePacket`, `parseCloseChannel`, `releaseProtocol` and `disconnectClient` of the cast session are gameplay and connection teardown around `stopLiveCast`, and are left out.
- The spectator's own protocol (its login and its chat) is not part of this model; only the name and id setters are used.
