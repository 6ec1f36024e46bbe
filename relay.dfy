/**
 The event admission decision of the wallet relay (main.go): the fixed
 allow-list of event kinds, the membership test over it, the placeholder
 signature check, and the rejection rule that combines them.
 */
module WalletRelay {
  import opened Messages

  /** The kind numbers that the allow-list takes from the Nostr library.
      Their values are defined outside this repository, so they are a
      parameter of the model rather than guessed literals. */
  datatype NostrKinds = NostrKinds(
    nwcWalletInfo: int,
    nwcWalletRequest: int,
    nwcWalletResponse: int,
    nutZap: int,
    nutZapInfo: int,
    zap: int,
    zapRequest: int)

  /** A signed Nostr event, as the relay receives it. */
  datatype Event = Event(
    id: string,
    pubKey: string,
    createdAt: int,
    kind: int,
    tags: seq<seq<string>>,
    content: string,
    sig: string)

  /** The answer of a reject hook: whether to refuse the event, and why. */
  datatype Rejection = Rejection(reject: bool, msg: string)

  /** The allow-list `walletKinds`, in the order the table lists it: the
      seven library kinds, then thirteen literal kind numbers. */
  function WalletKinds(lib: NostrKinds): (table: seq<int>)
    ensures |table| == 20
    ensures forall k :: k in table <==>
      (k in LibraryKinds(lib) ||
       k in {17375, 7375, 7376, 7374, 38000, 38172, 38173, 10019, 9321, 23194, 31990, 3, 5})
  {
    [lib.nwcWalletInfo, lib.nwcWalletRequest, lib.nwcWalletResponse,
     lib.nutZap, lib.nutZapInfo, lib.zap, lib.zapRequest,
     17375, 7375, 7376, 7374,
     38000, 38172, 38173,
     10019, 9321, 23194, 31990, 3, 5]
  }

  /** The kinds the library supplies to the allow-list. */
  function LibraryKinds(lib: NostrKinds): set<int> {
    {lib.nwcWalletInfo, lib.nwcWalletRequest, lib.nwcWalletResponse,
     lib.nutZap, lib.nutZapInfo, lib.zap, lib.zapRequest}
  }

  /** The set of kinds that inserting every entry of `table`, left to
      right, into an initially empty set produces; it never has more
      elements than the table has entries. */
  function KindSet(table: seq<int>): (s: set<int>)
    ensures |s| <= |table|
  {
    if table == [] then {} else KindSet(table[..|table| - 1]) + {table[|table| - 1]}
  }

  /** Every kind of `kinds` is an entry of `table`. */
  predicate AllListed(table: seq<int>, kinds: seq<int>) {
    forall k :: k in kinds ==> k in table
  }

  /** `KindSet(table)` holds exactly the entries of `table`. */
  lemma {:induction false} KindSetMembership(table: seq<int>, k: int)
    ensures k in KindSet(table) <==> k in table
  {
    if table != [] {
      var init := table[..|table| - 1];
      KindSetMembership(init, k);
      assert table == init + [table[|table| - 1]];
    }
  }

  /** Inserting a kind that is already in the table leaves the set as it was,
      as re-assigning an existing key of a Go map does. This is why a library
      constant that coincides with a literal entry (the library's nutzap kind
      and the literal 9321, for one) changes nothing. */
  lemma DuplicateEntryIgnored(table: seq<int>, k: int)
    requires k in table
    ensures KindSet(table + [k]) == KindSet(table)
  {
    assert (table + [k])[..|table|] == table;
    KindSetMembership(table, k);
  }

  /** Only the set of table entries matters: reordering the table or
      repeating entries in it does not change any verdict. This follows
      directly from `AllListed` being defined by membership; the body only
      translates the premise on `KindSet` into membership. */
  lemma TableSetDecidesVerdict(t1: seq<int>, t2: seq<int>, kinds: seq<int>)
    requires KindSet(t1) == KindSet(t2)
    ensures AllListed(t1, kinds) == AllListed(t2, kinds)
  {
    forall k | k in kinds
      ensures k in t1 <==> k in t2
    {
      KindSetMembership(t1, k);
      KindSetMembership(t2, k);
    }
  }

  /** Only the set of kinds asked about matters: reordering or repeating
      the kinds does not change the verdict. Like the lemma above, a direct
      consequence of `AllListed` being defined by membership. */
  lemma KindsSetDecidesVerdict(table: seq<int>, k1: seq<int>, k2: seq<int>)
    requires KindSet(k1) == KindSet(k2)
    ensures AllListed(table, k1) == AllListed(table, k2)
  {
    forall k
      ensures k in k1 <==> k in k2
    {
      KindSetMembership(k1, k);
      KindSetMembership(k2, k);
    }
  }

  /** `containsOnlyWalletKids`: builds the set of allowed kinds from the
      table, then scans `kinds` and answers false at the first kind that is
      not in the set. `stoppedAt` records where the scan returned early. */
  method ContainsOnlyWalletKinds(lib: NostrKinds, kinds: seq<int>)
      returns (ok: bool, ghost stoppedAt: nat)
    ensures ok <==> AllListed(WalletKinds(lib), kinds)
    ensures !ok ==> stoppedAt < |kinds| && kinds[stoppedAt] !in WalletKinds(lib)
                    && AllListed(WalletKinds(lib), kinds[..stoppedAt])
  {
    var table := WalletKinds(lib);
    var walletKindSet: set<int> := {};
    for i := 0 to |table|
      invariant walletKindSet == KindSet(table[..i])
    {
      assert table[..i + 1][..i] == table[..i];
      walletKindSet := walletKindSet + {table[i]};
    }
    assert table[..|table|] == table;
    stoppedAt := 0;
    for i := 0 to |kinds|
      invariant AllListed(table, kinds[..i])
    {
      KindSetMembership(table, kinds[i]);
      if kinds[i] !in walletKindSet {
        stoppedAt := i;
        return false, stoppedAt;
      }
      assert kinds[..i + 1] == kinds[..i] + [kinds[i]];
    }
    assert kinds[..|kinds|] == kinds;
    return true, stoppedAt;
  }

  /** `verifyEventSignature`: a placeholder that accepts every event. */
  function VerifyEventSignature(event: Event): (valid: bool)
    ensures valid
  {
    true
  }

  /** The rule of the reject hook, for a signature verdict and a kind:
      the signature is checked first, then the kind against the allow-list. */
  function Decide(lib: NostrKinds, signatureValid: bool, kind: int): (r: Rejection)
    ensures r.reject <==> !signatureValid || kind !in WalletKinds(lib)
    ensures !r.reject ==> r.msg == ""
    ensures r.reject ==> r.msg == MsgInvalidSignature || r.msg == MsgInvalidEvent
  {
    if !signatureValid then
      Rejection(true, MsgInvalidSignature)
    else if !AllListed(WalletKinds(lib), [kind]) then
      Rejection(true, MsgInvalidEvent)
    else
      Rejection(false, "")
  }

  /** The reject hook the relay installs, applied to an incoming event. */
  function RejectEvent(lib: NostrKinds, event: Event): (r: Rejection)
    ensures r.reject <==> event.kind !in WalletKinds(lib)
    ensures r.reject ==> r.msg == MsgInvalidEvent
    ensures !r.reject ==> r.msg == ""
  {
    Decide(lib, VerifyEventSignature(event), event.kind)
  }

  /** A failed signature check decides the answer whatever the kind. */
  lemma SignatureCheckedFirst(lib: NostrKinds, kind: int)
    ensures Decide(lib, false, kind) == Rejection(true, "invalid-signature: authentication failed")
  {
  }

  /** With a valid signature, a kind outside the allow-list gets the policy reason. */
  lemma ForeignKindRejected(lib: NostrKinds, kind: int)
    requires kind !in WalletKinds(lib)
    ensures Decide(lib, true, kind) == Rejection(true, "invalid-event: only wallet kinds are allowed")
  {
  }

  /** With a valid signature, an allowed kind is accepted with an empty reason. */
  lemma WalletKindAccepted(lib: NostrKinds, kind: int)
    requires kind in WalletKinds(lib)
    ensures Decide(lib, true, kind) == Rejection(false, "")
  {
  }

  /** The literal entries of the table are allowed, an empty list is allowed,
      and kind 1, which the table does not list, is refused unless the
      library happens to give one of its kinds that number. */
  lemma ConcreteVerdicts(lib: NostrKinds)
    requires 1 !in LibraryKinds(lib)
    ensures AllListed(WalletKinds(lib), [])
    ensures AllListed(WalletKinds(lib), [7375, 17375, 38000, 5])
    ensures !AllListed(WalletKinds(lib), [1])
    ensures RejectEvent(lib, Event("", "", 0, 1, [], "", "")).msg == MsgInvalidEvent
  {
    assert 1 in [1];
  }
}
