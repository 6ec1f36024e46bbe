# Wallet relay: event admission decision

This project models the admission decision of a Nostr relay that only stores
wallet-related events. Every event a client publishes passes through one
reject hook. The hook first checks the event's signature. It then checks the
event's kind against a fixed allow-list, the wallet kinds. It answers with a
pair: whether to reject, and a reason string that the client sees.

The model has two modules:

- `Messages` (`messages.dfy`) holds the reason strings: `MsgInvalidEvent`,
  `MsgPublishFail` and the literal signature-failure reason that main.go
  writes inline.
- `WalletRelay` (`relay.dfy`) holds the rest:
  - the allow-list `WalletKinds`, as a `seq<int>` in table order;
  - the membership test `ContainsOnlyWalletKinds`, as a method with the
    source's two loops (fill a set, then scan with an early return);
  - the placeholder `VerifyEventSignature`;
  - the hook's rule `Decide`, over a signature verdict and a kind;
  - `RejectEvent`, the hook as the relay installs it on an event.

Seven entries of the allow-list are constants of the Nostr library
(`nostr.KindNWCWalletInfo` and six others). Their values are defined outside
this repository. They are a parameter of the model, the record `NostrKinds`,
so every statement holds whatever numbers the library assigns. The Go map
`map[int]struct{}` that the membership test fills is a `set<int>`.
`KindSet(table)` is the set that inserting the table's entries left to right
produces.

The hook checks the signature before the kind (main.go:70-72), so an event
with a disallowed kind and a bad signature gets the signature reason; see
`Decide` and `SignatureCheckedFirst`.

The reason strings are constants of `Messages`:

- `MsgInvalidEvent` is the policy reason (messages.go:5).
- `MsgPublishFail` is the prefix of the log line for a refused kind
  (messages.go:8). It is kept only as context, since the log line is not modelled.
- `MsgInvalidSignature` names the literal reason that main.go:71 writes inline.

## Model

| member | source | states |
|---|---|---|
| `WalletRelay.WalletKinds` | main.go:18-41 | the allow-list has 20 entries, and a kind is listed exactly when it is one of the 7 library constants or one of the 13 literal numbers 17375, 7375, 7376, 7374, 38000, 38172, 38173, 10019, 9321, 23194, 31990, 3 and 5; the body keeps the source order |
| `WalletRelay.KindSet` | main.go:119-123 | the set that the fill loop builds never has more elements than the table has entries (repeated entries collapse) |
| `WalletRelay.ContainsOnlyWalletKinds` | main.go:118-131 | answers true exactly when every kind of the argument is in the allow-list; when it answers false, it stopped at the first kind not in the table, and every kind before it is listed |
| `WalletRelay.KindSetMembership` | main.go:119-123 | the set that the fill loop builds from the table holds exactly the table's entries |
| `WalletRelay.DuplicateEntryIgnored` | main.go:121-123 | inserting a kind already in the table does not change the set |
| `WalletRelay.TableSetDecidesVerdict` | main.go:119-123 | the verdict depends only on the set of table entries: reordering the table or repeating entries in it (the library constants may coincide with literal entries) changes no verdict |
| `WalletRelay.KindsSetDecidesVerdict` | main.go:124-128 | the verdict depends only on the set of kinds asked about: reordering or repeating them changes nothing |
| `WalletRelay.VerifyEventSignature` | main.go:134-138 | the placeholder signature check accepts every event |
| `WalletRelay.Decide` | main.go:69-79 | rejects exactly when the signature is invalid or the kind is not allowed; an accepted event gets the empty reason; a rejected one gets the signature reason or the policy reason |
| `WalletRelay.RejectEvent` | main.go:69-79 | with the placeholder check in place, the hook rejects exactly the events whose kind is not in the allow-list, always with the policy reason `MsgInvalidEvent` |
| `WalletRelay.SignatureCheckedFirst` | main.go:70-72 | a failed signature check gives `(true, "invalid-signature: authentication failed")` whatever the kind |
| `WalletRelay.ForeignKindRejected` | main.go:73-76 | a valid signature with a kind outside the allow-list gives `(true, "invalid-event: only wallet kinds are allowed")` |
| `WalletRelay.WalletKindAccepted` | main.go:78 | a valid signature with an allowed kind gives `(false, "")` |
| `WalletRelay.ConcreteVerdicts` | main.go:26-40 | the empty list is allowed; the literal kinds 7375, 17375, 38000 and 5 are allowed; kind 1 is refused with the policy reason whenever no library constant equals 1 |

## Left out

- The numbers behind the seven `nostr.Kind*` entries of the allow-list: they live in the Nostr library, which is not part of this model, so they are a parameter.
- Real signature verification (Schnorr signatures over secp256k1): the source has only a stub that returns true. `Decide` takes the verdict as a boolean, so it also covers a real check.
- The log line `fmt.Println(MsgPublishFail, event.Kind)` written when an event is refused: it is output only and does not affect the answer.
- Storage, replacement of replaceable events, queries and deletion: the relay hands these to the LMDB event store, whose code is not part of this model.
- How the relay library runs its list of reject hooks, and concurrent request handling: that library is not part of this model, and the hook shown keeps no state.
- `main`'s server setup, database initialisation and HTTP listening, and `LoadConfig`'s reading of `.env` and environment variables: process start-up and I/O with no decision logic.
- `MsgInvalidFilter`, `MsgSubscribeFail` and `MsgListening`: declared in messages.go, but main.go never uses the first two, and the third is only a log format. No filter-side kind restriction exists in the code.
