# Signaling room registry

A model of the session manager of a WebRTC signaling server. The server
pairs up two peers in a named room and forwards their handshake messages to
each other. The session manager keeps a registry that maps each room id to
the peers in that room. It has three operations:

- **join**: creates the room on first use. It turns away a third peer with the
  text `Room is full. Only 2 peers are allowed.` and then closes that peer's
  connection. Otherwise it admits the peer. When the room then holds exactly
  two peers, it sends `STATE Ready` to both of them.
- **relay**: forwards a message unchanged to every peer in the room except the
  sender. It does nothing if the room does not exist.
- **leave**: removes the peer and sends `STATE Disconnected` to each peer that
  remains. It deletes the room once it is empty. It does nothing if the room
  or the peer is absent.

Files:

- `signaling.dfy`, module `Signaling`: the registry as a value.
  - Rooms are `map<RoomId, seq<PeerId>>`. Each room lists its peers in the
    order they joined, which is the order the room's dictionary iterates in.
  - A peer's connection handle is named by its peer id.
  - Every send and close is an `Effect`.
  - `Joined`, `Relayed` and `Left` define what each operation does to the
    registry and which effects it issues, in order.
  - `Replay` runs a sequence of requests one after another.
  - The lemmas state the properties of these functions.
- `sessions.dfy`, module `Sessions`: the class `SessionManager`.
  - Its `rooms` map is updated in place.
  - Every effect is appended to an `outbox`.
  - Its loops send to the occupants one at a time.
  - Each method is proved to leave exactly the registry and the outbox that
    the matching function of `Signaling` gives. So every lemma about those
    functions also holds of the object.

Each operation runs atomically, as if under one registry-wide lock.

Notes on the behaviour of main.py that the model keeps:

- After the first of two peers disconnects, the room still exists with the
  second peer in it (main.py:65-77). It is deleted only when that peer leaves
  too (`ScenarioExchange`).
- `join_room` returns nothing (main.py:27-49). The effects and the new registry
  show whether the peer was admitted or turned away.
- `relay_message` sends to every occupant whose id is not the sender's
  (main.py:56-60). If the sender is not in the room, every occupant receives
  the message, so a relay can send more than one message.
- A join by a peer id that is already in the room does not add it twice
  (main.py:42 overwrites the dictionary entry; `JoinPresentPeer`). If the room
  already holds two peers, that peer is turned away like any other.

## Model

| member | source | states |
|---|---|---|
| `Signaling.Broadcast` | main.py:47-49 | sends the text to each listed peer, one send per peer, in list order, and nothing else |
| `Signaling.Without` | main.py:57-58 | the peers kept are exactly those in the room other than the excluded one |
| `Signaling.Joined` | main.py:27-49 | defines join; it has no contract of its own, and the `Join…` lemmas below state its properties |
| `Signaling.Relayed` | main.py:52-60 | defines relay; it has no contract of its own, and the `Relay…` lemmas below state its properties |
| `Signaling.Left` | main.py:62-77 | defines leave; it has no contract of its own, and the `Leave…` lemmas below state its properties |
| `Signaling.Apply` | main.py:96-108 | defines one handler call (join, relay or leave) on the registry; no contract of its own, `ReplayKeepsWellFormed` states its property |
| `Signaling.Replay` | main.py:96-108 | defines a run of handler calls, one after another, with all their effects in order; no contract of its own, `ReplayKeepsWellFormed` states its property |
| `Signaling.BroadcastCount` | main.py:47-49 | each peer gets the text as many times as it is listed, so exactly once when nobody is listed twice |
| `Signaling.WithoutCount` | main.py:67 | removing a peer drops every copy of it and keeps every other peer as often as it was listed |
| `Signaling.WithoutNoDuplicates` | main.py:67 | removing a peer from a room of distinct peers leaves distinct peers, one fewer when the peer was there |
| `Signaling.JoinFullRoom` | main.py:36-40 | a join into a room of two or more changes no room, sends the rejection text to the joiner only, then closes the joiner |
| `Signaling.JoinAbsentRoom` | main.py:30-42 | a join into an absent room creates it with the joiner alone and sends nothing |
| `Signaling.JoinAloneIsSilent` | main.py:42-49 | the room exists after a join; if it then holds one peer, nothing is sent |
| `Signaling.JoinCompletesPair` | main.py:42-49 | a second peer is appended to the room, and `STATE Ready` goes to the earlier occupant and then to the newcomer, and nothing else is sent |
| `Signaling.JoinReadyOnce` | main.py:42-49 | whenever an admitted join brings a room to two peers, every effect is a `STATE Ready` send, and each of the two occupants gets exactly one while nobody else gets any |
| `Signaling.JoinPresentPeer` | main.py:42-46 | a join by a peer already in a room of one leaves the registry unchanged and sends nothing; a re-join into a room of two is turned away (`JoinFullRoom`) |
| `Signaling.JoinKeepsWellFormed` | main.py:27-49 | a join keeps every room at one or two distinct peers and leaves every other room as it was |
| `Signaling.JoinKeepsExclusive` | main.py:42 | a peer that is in no other room cannot end up in two rooms by joining |
| `Signaling.RelayReachesOthersOnce` | main.py:56-60 | a relay sends only the unchanged message, only to occupants other than the sender, and exactly once to each of them |
| `Signaling.RelayUnknownRoom` | main.py:56 | a relay into an absent room sends nothing |
| `Signaling.LeavePresentPeer` | main.py:65-77 | a leave removes exactly that peer, so the room shrinks by one; the room is deleted exactly when nobody remains, otherwise it holds the others; other rooms are untouched |
| `Signaling.LeaveNotifiesRemaining` | main.py:69-72 | a leave sends one effect per remaining peer, each a `STATE Disconnected` send to a remaining peer, and each remaining peer gets exactly one |
| `Signaling.LeaveAbsentIsNoOp` | main.py:65 | a leave from an absent room, or of a peer not in it, changes nothing and sends nothing |
| `Signaling.LeaveTwice` | main.py:62-77 | a second leave of the same peer changes nothing and sends nothing, so leaving twice has the effect of leaving once |
| `Signaling.LeaveKeepsWellFormed` | main.py:62-77 | a leave, whether or not the peer is present, keeps every room at one or two distinct peers |
| `Signaling.LeaveKeepsExclusive` | main.py:65-77 | a leave cannot put a peer in two rooms |
| `Signaling.ReplayKeepsWellFormed` | main.py:27-77 | no sequence of joins, relays and leaves makes a room exceed two peers or leaves an empty room behind |
| `Signaling.ScenarioJoins` | main.py:27-49 | the first peer creates the room silently; the second makes it ready and both get `STATE Ready`; the third is rejected and closed, and the room is unchanged |
| `Signaling.ScenarioExchange` | main.py:52-77 | in a room of two, an offer reaches only the other peer, and so does the answer; when the first peer leaves, the second is told and stays; when the second leaves, the room is deleted and nobody is told |
| `Sessions.SessionManager.constructor` | main.py:24 | the registry starts with no rooms and nothing sent |
| `Sessions.SessionManager.Notify` | main.py:47-49 | the loop appends one send of the text per listed peer, in order, to the outbox |
| `Sessions.SessionManager.NotifyOthers` | main.py:57-60 | the loop appends one send of the message per occupant other than the sender, in room order, to the outbox |
| `Sessions.SessionManager.JoinRoom` | main.py:27-49 | the new room map and the appended effects are those of `Joined`; rooms stay well formed |
| `Sessions.SessionManager.RelayMessage` | main.py:52-60 | the room map is unchanged and the appended effects are those of `Relayed` |
| `Sessions.SessionManager.LeaveRoom` | main.py:62-77 | the new room map and the appended effects are those of `Left`; rooms stay well formed |

## Left out

- The web application is not modelled: the websocket endpoint, its accept and
  receive loop, and its exception-driven call to leave (main.py:84-108). These
  are transport I/O. `Replay` stands for the order in which those handlers
  call the registry.
- Peer ids are not generated. main.py:88 uses a random `uuid.uuid4()`, so the
  model takes the peer id as an input. Lemmas that need a fresh id say so in
  their `requires` (`JoinKeepsExclusive`).
- The `asyncio.Lock` and async/await are not modelled (main.py:19, 29, 64).
  Each operation is atomic. `relay_message` takes no lock in the source, so
  there it can interleave with a join or a leave; the model does not capture
  that interleaving.
- The singleton `__new__` (main.py:21-25) is replaced by one explicitly
  constructed `SessionManager`.
- Logging `print`s, the health-check handler (main.py:79-82) and the `uvicorn`
  start-up (main.py:110-112) are left out.
- The bytes sent over the websocket are not modelled. A send is an outbox entry
  and a close is a `Close` entry.
- A send or close that fails is not modelled. Each one is assumed to succeed.
  In the source, an exception from `send_text` would abort the rest of the
  notification loop.
- A handle is named by its peer id. When a join overwrites an existing entry
  (main.py:42), the source replaces the old handle with the new one; the model
  cannot tell the two handles apart.
- `OFFER`, `ANSWER` and `ICE` (main.py:12-14) are only forwarded, never
  originated or inspected, so they appear only as opaque messages.
