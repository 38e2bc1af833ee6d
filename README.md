# relaygg OOB correlation core, modelled in Dafny

relaygg is a TLS proxy that hides the real server name from a censor. It sends
the real name to a remote peer over an out-of-band (OOB) channel, carried by the
Yggdrasil overlay network. This project models the OOB module of that proxy and
the peer-selection step of its OOB self-test:

- `wrappers.dfy` (module `Wrappers`): `Option` and `Result`.
- `oob.dfy` (module `Oob`) covers `oob.go`:
  - `OobMessage` is the request record (request id and payload).
  - `IsValidYggdrasilAddress` is the peer-address check. It matches the anchored
    pattern `^[a-fA-F0-9:]+$`.
  - `AckReply` is the server's `"ACK: "` reply. `AckPayload` is its inverse.
    It exists only to state the round trip; nothing in the source decodes an
    acknowledgement.
  - `AfterRegister`, `AfterDeliver`, `Awaited`, `AfterRemove` and `DeliverAll`
    describe the request table as values: a map from request id to a
    capacity-one response slot.
  - The class `RequestTable` is that table, updated in place. Its methods are
    `Register`, `Deliver`, `Await` and `Remove`.
  - The class `OobModule` holds the peers and the table. Its methods are
    `SendOobRequest` (the client) and `HandleOobSession` (the server).
- `peer_probe.dfy` (module `PeerProbe`) covers the peer loop of `test_oob.go`.
  `FirstReachable` is the reference definition. `SelectWorkingPeer` is the loop
  with its `break`.

The model is sequential. While a client waits, at most one inbound server
session runs on the same table. It is the `duringWait` parameter of
`SendOobRequest`. `SendOobRequest` never reads the peer's reply from the
connection. So a response can reach the waiter only through a co-located
`HandleOobSession` that shares the table. When the slot is still empty at the
await, the wait ends on the 5-second timer. The outcomes of dialling and writing
are boolean parameters. The request id is a parameter as well. The reachability
check of the peer loop is a function parameter.

Behaviours of the code the model keeps:

- Registering an id that is already present replaces its slot. It is not
  refused as a duplicate.
- The id is removed on every return path after registration, not only on
  timeout.
- The server replies `"ACK: "` followed by the request's payload. It performs no
  destination handshake.
- The peer-address check is part of `SendOobRequest`. It runs before anything
  else.
- The peer loop uses `""` to mean "no peer found". A reachable peer whose
  address is the empty string is therefore reported as "no reachable peer".
  `SelectWorkingPeer` states this case.
- The module's own demonstration (`oob.go:150-165`) sends to `"ygg_peer1"`. The
  address check refuses that address (`DemoAddressesRejected`).

## Model

| member | source | states |
|---|---|---|
| `Oob.IsValidYggdrasilAddress` | oob.go:37-42 | the address matches iff it is non-empty and every character is a hex digit (either case) or `:` |
| `Oob.DemoAddressesRejected` | oob.go:151-160 | `"ygg_peer1"`, `"ygg_peer2"` and `""` are refused; `"200:db8::1"` is accepted |
| `Oob.AckReply` | oob.go:137 | the reply is the 5-character prefix `"ACK: "` followed by exactly the request's payload |
| `Oob.AckRoundTrip` | oob.go:137-143 | decoding the reply to payload `d` gives back `d` unmodified |
| `Oob.AckPayloadInverse` | oob.go:137 | any text that decodes to `d` is exactly the reply to `d` |
| `Oob.AckReplyInjective` | oob.go:137 | different payloads give different replies |
| `Oob.RegisterReplacesOnlyItsOwnSlot` | oob.go:108-109 | after registering, the id's slot is empty, even if the id was present before; no other id is added, removed or changed |
| `Oob.DeliverFillsOpenSlot` | oob.go:141-143 | a delivery to a registered, empty slot stores exactly the response and leaves the slot closed to further deliveries |
| `Oob.DeliverToClosedSlotIsNoOp` | oob.go:141-146 | a delivery to a full slot or to an absent id leaves the whole table unchanged |
| `Oob.DeliverAfterRemoveIsNoOp` | oob.go:110 | after the id has been deleted, a late delivery to it changes nothing |
| `Oob.RegisterDeliverAwait` | oob.go:108-114 | register, deliver `p`, await: the waiter receives exactly `p` |
| `Oob.RegisterAwaitTimesOut` | oob.go:112-117 | register and await with no delivery: the wait ends on the timer |
| `Oob.DeliverAllToClosedSlot` | oob.go:142-146 | any series of deliveries to a full or absent slot is dropped: the table is unchanged and none is accepted |
| `Oob.FirstDeliveryWins` | oob.go:141-146 | of any non-empty series of deliveries to an open slot, exactly one is accepted, and the slot keeps the first response |
| `Oob.RequestTable.constructor` | oob.go:34 | a new table has no entries |
| `Oob.RequestTable.Register` | oob.go:108-109 | the table becomes `AfterRegister` of the old table: an empty slot under the id, replacing any slot there |
| `Oob.RequestTable.Remove` | oob.go:110 | the table becomes `AfterRemove` of the old table: the id is gone, present or not before |
| `Oob.RequestTable.Deliver` | oob.go:141-146 | the result is true iff the id was present with an empty slot; the table is then filled as `AfterDeliver` says, and is otherwise unchanged |
| `Oob.RequestTable.Await` | oob.go:112-117 | a full slot yields its response and is emptied; an empty slot yields the timeout |
| `Oob.OobModule.constructor` | oob.go:77-81 | the module keeps the given peers and starts with an empty request table |
| `Oob.OobModule.HandleOobSession` | oob.go:121-147 | a failed read or decode gives no reply and leaves the table alone; otherwise the reply is `"ACK: " + data` and that same text is offered to the waiter registered under the request's id |
| `Oob.OobModule.SendOobRequest` | oob.go:85-118 | an invalid peer fails before dialling and leaves the table unchanged; a failed dial or write also leaves it unchanged; otherwise the id is absent from the table afterwards; the result is the ACK of the session that answered this id, or a timeout; entries of other ids change only through that session's own delivery |
| `PeerProbe.FirstReachable` | test_oob.go:26-35 | the index found is reachable and every earlier peer is not; the result is None iff no peer is reachable |
| `PeerProbe.SelectWorkingPeer` | test_oob.go:18-39 | an empty list fails with no probe; otherwise the peers probed are exactly `peers[..k+1]` in list order, where `k` is the first reachable index (so `k+1` probes), or the whole list when none is reachable; the outcome is `peers[k]`, or a failure when none is reachable or `peers[k]` is `""` |

## Left out

- `proxy.go` as a whole: the accept loop, the goroutine per connection, the TLS dial and the two copy relays are I/O and concurrency. Its `extractSNI` is a stub that always returns `"example.com"`, so there is no ClientHello parser to model.
- `generateSelfSignedCert` and the Yggdrasil/QUIC set-up in `NewOOBModule` call cryptographic and network libraries. Only the resulting fields (peers and an empty table) are modelled.
- Dialling, writing, reading with its 512-byte buffer, and JSON encoding and decoding are not modelled. Their outcomes are parameters, and messages are already decoded records.
- The request id from the wall clock and the real 5-second timer are not modelled. The id is a parameter, and the timeout is the outcome of awaiting an empty slot.
- Oob.OobModule.SendOobRequest: the source registers the slot only after writing the request, so a fast co-located server can answer before registration. Its response is then dropped. The sequential model runs the server session after registration, so it does not capture that race. `DeliverToClosedSlotIsNoOp` states what happens to such a response.
- Oob.RequestTable.Await: with Go's `select`, a response can arrive while the caller waits. The model takes only what is in the slot at the await, and treats an empty slot as the timer firing.
- Goroutine interleavings, `sync.Map` atomicity and the unused mutex are not modelled.
- Logging, the `main` functions (except the peer loop) and `log.Fatalf` exits are not modelled. The exits of the peer loop become `Failure` results.
- The self-test's final `SendOOBRequest` call (`test_oob.go:41-50`) passes three arguments, but `oob.go` defines the method with two. The model follows the definition.
- `CanConnect` is not part of this model. It is the reachability parameter.
