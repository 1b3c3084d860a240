# Circuit-relay transport dialer, modelled in Dafny

This project models the transport-level `Dialer` of the libp2p circuit-relay
transport (`src/dialer.js`). That is the object a libp2p swarm holds to
reach peers through relays. The model covers:

- `filter`: the circuit-relay addresses among a list, or among a single
  address treated as a one-element list.
- Construction: the dialer collects the local peer's circuit addresses. If
  there are none, it adds the default relay address `/p2p-circuit/ipfs/<own id>`
  to the peer's address set. It then arms a `listening` handler with the
  addresses collected before that insertion.
- The `listening` handler (`_dialSwarmRelays`): every captured relay address
  is split on the literal `/p2p-circuit`. Empty pieces are dropped, and each
  remaining hop segment is handed to `dialRelay`, one at a time, relay by
  relay.
- The `peer-mux-established` handler, which hands the peer to `dialRelay`.
  The `peer-mux-closed` handler, which deletes the peer's id from the relay
  registry `relayPeers`.
- The read-only `priority` property.

Files:

- `js_builtins.dfy` (module `JsBuiltins`): the JavaScript built-ins the
  dialer relies on, with their laws. These are `Array.prototype.filter`
  (`ArrayFilter`), `String.prototype.split` with a string separator
  (`StringSplit`), `Array.prototype.join` (`ArrayJoin`) and nested `forEach`
  loops (`FlatMap`).
- `dialer.dfy` (module `CircuitDialer`): the dialer itself. The swarm's
  `PeerInfo` is a class whose address list the constructor extends in place.
  `Dialer` is a class with the relay registry and a log of `dialRelay` calls
  as mutable fields. The pure parts (`Filter`, `Segments`, `AllSegments`,
  `EnsureDefaultRelay`, `Evict`) are functions with lemmas.

Modelling choices:

- The circuit matcher `mafmt.Circuit.matches` is a function-valued parameter
  `isCircuit`. Nothing is assumed about it.
- Addresses and peer ids are plain strings.
- A real relay dial becomes an entry in `Dialer.dialLog`.
- Swarm events are methods that a caller invokes.

The relay addresses dialled on `listening` are the circuit addresses among
the local peer's own addresses (`swarm._peerInfo.multiaddrs`, line 32). The
source's own comments call them the relays "in the Addresses.Swarm config"
(lines 54 and 60): the swarm's address list is that configuration.

The `peer-mux-established` handler only calls `dialRelay` (line 45). It does
not write the relay registry itself; the relay dialer fills the registry.

## Model

| member | source | states |
|---|---|---|
| `CircuitDialer.Filter` | src/dialer.js:122-129 | Every returned address satisfies the matcher. A single non-array argument gives `[addr]` if it matches, else `[]`. For an array, the result is an order-preserving subsequence of the input. Every matching input address is in the result, with the same multiplicity as in the input. |
| `CircuitDialer.FilterIdempotent` | src/dialer.js:126-128 | Filtering the output of `filter` again returns it unchanged. |
| `JsBuiltins.ArrayFilter` | src/dialer.js:126-128 | `Array.prototype.filter` returns no more elements than its input, and every one passes the test. |
| `JsBuiltins.ArrayFilterMembers` | src/dialer.js:126-128 | An element is in the filter's result exactly when it is in the input and passes. Its multiplicity is the input's if it passes, else zero. |
| `JsBuiltins.ArrayFilterIsSubsequence` | src/dialer.js:126-128 | The filter's result is a subsequence of its input: nothing is added or reordered. |
| `JsBuiltins.ArrayFilterIdempotent` | src/dialer.js:126-128 | Filtering twice with the same test equals filtering once. |
| `JsBuiltins.StringSplit` | src/dialer.js:63-65 | `split` on a non-empty separator always yields at least one piece, and the first piece is a prefix of the string. |
| `JsBuiltins.JoinSplit` | src/dialer.js:63-65 | Joining the pieces of `s.split(d)` with `d` gives back `s`: the split loses nothing but the separators. |
| `JsBuiltins.SplitPiecesFree` | src/dialer.js:63-65 | No piece produced by `split` contains the separator. |
| `JsBuiltins.SplitJoin` | src/dialer.js:63-65 | Splitting a join of pieces gives back exactly those pieces, when no occurrence of the separator starts inside any piece. |
| `CircuitDialer.SegmentsWellFormed` | src/dialer.js:63-66 | Every hop segment of a relay address is non-empty and contains no `/p2p-circuit`. The segments are the split's pieces in their original order. |
| `CircuitDialer.SegmentsOfChain` | src/dialer.js:63-66 | A relay address made of non-empty hops joined by `/p2p-circuit` yields exactly those hops, in order. |
| `CircuitDialer.DefaultRelaySegments` | src/dialer.js:39 | The default relay address `/p2p-circuit/ipfs/<id>` splits into the single hop `/ipfs/<id>`. |
| `CircuitDialer.AllSegmentsWellFormed` | src/dialer.js:62-70 | Every segment dialled on `listening` is non-empty and free of `/p2p-circuit`. It is a segment of one of the captured relays. |
| `CircuitDialer.RelayOrder` | src/dialer.js:62-70 | The first relay's segments are dialled before those of the remaining relays. |
| `CircuitDialer.SegmentDialsAt` | src/dialer.js:68-70 | Dialling a list of segments issues exactly one `dialRelay` per segment, in the segments' order. |
| `JsBuiltins.FlatMapAppend` | src/dialer.js:62-70 | The dials for two lists of relays are those of the first list followed by those of the second. |
| `CircuitDialer.AddAddr` | src/dialer.js:36-39 | Adding to a peer's address set makes the address present and keeps every old address in place. It grows the set by exactly one when the address was absent, and leaves it unchanged when the address was already present. |
| `CircuitDialer.EnsureDefaultRelay` | src/dialer.js:32-40 | When some local address is a circuit address, the address set is unchanged. When none is, `/p2p-circuit/ipfs/<id>` is added as the only new entry, after the existing ones, unless it is already present, in which case nothing changes. |
| `CircuitDialer.EnsureDefaultRelayIdempotent` | src/dialer.js:32-40 | When the matcher recognises the default relay address, constructing again over the resulting address set adds nothing. |
| `CircuitDialer.PeerInfo.AddMultiaddr` | src/dialer.js:36-39 | The peer's address set becomes `AddAddr` of the old set. |
| `CircuitDialer.Dialer.constructor` | src/dialer.js:24-51 | The relay list captured for `listening` is the filter of the local addresses taken before the default is added. The peer's addresses become `EnsureDefaultRelay` of the old ones. Whenever the default was added, the captured relay list is empty, so `listening` dials nothing. The registry and the dial log start empty. |
| `CircuitDialer.Dialer.OnListening` | src/dialer.js:59-73 | The dial log grows by one segment dial per hop segment of the captured relays: relay by relay, then segment by segment, nothing else. |
| `CircuitDialer.Dialer.DialSegments` | src/dialer.js:68-70 | The dial log grows by one entry per segment, in order. |
| `CircuitDialer.Dialer.OnPeerMuxEstablished` | src/dialer.js:45 | The dial log grows by exactly one dial for the newly connected peer. |
| `CircuitDialer.Evict` | src/dialer.js:47 | Deleting an id from the registry removes that key and only that key. Every other entry is unchanged. The size drops by one if the key was present. If it was absent, the registry is unchanged. |
| `CircuitDialer.RegisterThenEvict` | src/dialer.js:45-48 | Closing a peer after it was registered leaves the registry as closing it alone would. If the peer was not registered before, it leaves the registry as it was. |
| `CircuitDialer.Dialer.OnPeerMuxClosed` | src/dialer.js:46-48 | The registry becomes `Evict` of the old registry at the closed peer's id. The dial log does not change. |
| `CircuitDialer.Dialer.Priority` | src/dialer.js:75-77 | Reading the priority always yields the same constant, and changes nothing. |
| `CircuitDialer.Dialer.SetPriority` | src/dialer.js:79-81 | Writing the priority always fails with `PriorityReadOnly`, whatever the value, and changes nothing. |

## Left out

- `dial` (src/dialer.js:93-95) only forwards to `OnionDialer.dial`. That code lives in `src/circuit/onion-dialer.js`, which is not part of this model.
- `createListener` (src/dialer.js:104-111) only forwards to `src/listener.js`, which is not part of this model.
- `dialRelay` and `utils.peerInfoFromMa`: what a relay dial does on the network is not modelled. Each call is one entry in `dialLog`.
- Parsing a segment with `multiaddr(...)` is not modelled. In the source, a segment that fails to parse would throw inside the `listening` handler and stop the remaining dials.
- The registry entries that `OnionDialer.dialRelay` adds after a successful hop check are decided in `src/circuit/onion-dialer.js`, which is not part of this model. `Dialer.RegisterRelay` stands in for that registration, as `Register`. The registry starts empty, as a freshly constructed relay dialer's does.
- `PRIORITY`: `src/circuit/constants.js` is not part of this model. `PRIORITY` stands for its `PRIOIRY` entry, and the value 100 written here is not checked against that file.
- `mafmt.Circuit.matches` is the parameter `isCircuit`. So the model cannot show that the default relay address is itself a circuit address. `EnsureDefaultRelayIdempotent` takes that as its hypothesis.
- The address set of `peer-info` is not part of this model. Its `add` is modelled as insertion at the end unless the address is already present.
- `toB58String()`: peer ids are their base58 strings.
- Subscribing to swarm events (`swarm.on`) is replaced by methods that the caller invokes. `listening` may fire more than once, and each call of `OnListening` dials the captured relays again.
- The `options` object given to the constructor only reaches the relay dialer, so it is not modelled.
- Debug logging is not modelled.
- `test/helpers/utils.js` only creates and starts test nodes. It holds no logic to state.
