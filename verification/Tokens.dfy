/**
 Pending invitations (internal/enrol/token.go): what the store does with them, and that
 none is ever worth more enrolments than it was minted for.
*/
module Tokens {
  import opened Basics

  /** The public identifier: the first bytes of the key's hash. */
  type TokenId = Bytes

  datatype Token = Token(key: Bytes, expires: int, uses: int)

  type Pending = map<TokenId, Token>

  /** gc: drops what has expired. */
  function Unexpired(tokens: Pending, now: int): Pending {
    map id | id in tokens && now < tokens[id].expires :: tokens[id]
  }

  function AfterMint(idOf: Bytes -> TokenId, tokens: Pending, key: Bytes, ttl: int, uses: int, gcNow: int,
      now: int): Pending {
    if ttl <= 0 || uses <= 0 then tokens
    else Unexpired(tokens, gcNow)[idOf(key) := Token(key, now + ttl, uses)]
  }

  predicate Spendable(tokens: Pending, id: TokenId, now: int) {
    id in tokens && now < tokens[id].expires
  }

  function AfterConsume(tokens: Pending, id: TokenId, now: int): Pending {
    if !Spendable(tokens, id, now) then tokens
    else
      var t := tokens[id].(uses := tokens[id].uses - 1);
      if t.uses <= 0 then tokens - {id} else tokens[id := t]
  }

  class TokenStore {
    const idOf: Bytes -> TokenId
    var tokens: Pending

    constructor (idOf: Bytes -> TokenId)
      ensures this.idOf == idOf && tokens == map[]
    {
      this.idOf := idOf;
      tokens := map[];
    }

    /** The key is fresh from the random source; the clock is read twice, by gc and for the expiry. */
    method Mint(ttl: int, uses: int, key: Bytes, gcNow: int, now: int) returns (minted: bool)
      modifies this
      ensures minted <==> ttl > 0 && uses > 0
      ensures minted ==> idOf(key) in tokens && tokens[idOf(key)] == Token(key, now + ttl, uses)
      ensures tokens == AfterMint(idOf, old(tokens), key, ttl, uses, gcNow, now)
    {
      if ttl <= 0 || uses <= 0 {
        return false;
      }
      Gc(gcNow);
      tokens := tokens[idOf(key) := Token(key, now + ttl, uses)];
      return true;
    }

    method Lookup(id: TokenId, now: int) returns (key: Option<Bytes>)
      modifies this
      ensures tokens == Unexpired(old(tokens), now)
      ensures forall i :: i in tokens <==> i in old(tokens) && now < old(tokens)[i].expires
      ensures key == if Spendable(old(tokens), id, now) then Some(old(tokens)[id].key) else None
    {
      Gc(now);
      key := if id in tokens then Some(tokens[id].key) else None;
    }

    method Consume(id: TokenId, now: int) returns (ok: bool)
      modifies this
      ensures ok <==> Spendable(old(tokens), id, now)
      ensures tokens == AfterConsume(old(tokens), id, now)
    {
      if id !in tokens || !(now < tokens[id].expires) {
        return false;
      }
      var t := tokens[id].(uses := tokens[id].uses - 1);
      tokens := tokens[id := t];
      if t.uses <= 0 {
        tokens := tokens - {id};
      }
      return true;
    }

    method Gc(now: int)
      modifies this
      ensures tokens == Unexpired(old(tokens), now)
    {
      var todo, kept := tokens.Keys, tokens;
      while todo != {}
        invariant todo <= tokens.Keys
        invariant kept == map id | id in tokens && (id in todo || now < tokens[id].expires) :: tokens[id]
      {
        var id :| id in todo;
        todo := todo - {id};
        if !(now < tokens[id].expires) {
          kept := kept - {id};
        }
      }
      tokens := kept;
    }
  }

  // --- any interleaving, under any clock ---

  datatype Op =
    | MintOp(key: Bytes, ttl: int, count: int, gcNow: int, now: int)
    | LookupOp(id: TokenId, now: int)
    | ConsumeOp(id: TokenId, now: int)

  function Perform(idOf: Bytes -> TokenId, tokens: Pending, op: Op): Pending {
    match op
    case MintOp(key, ttl, count, gcNow, now) => AfterMint(idOf, tokens, key, ttl, count, gcNow, now)
    case LookupOp(_, now) => Unexpired(tokens, now)
    case ConsumeOp(id, now) => AfterConsume(tokens, id, now)
  }

  function After(idOf: Bytes -> TokenId, tokens: Pending, ops: seq<Op>): Pending {
    if ops == [] then tokens else Perform(idOf, After(idOf, tokens, ops[..|ops| - 1]), ops[|ops| - 1])
  }

  predicate Mints(idOf: Bytes -> TokenId, op: Op, id: TokenId) {
    op.MintOp? && idOf(op.key) == id && op.ttl > 0 && op.count > 0
  }

  predicate Spends(idOf: Bytes -> TokenId, tokens: Pending, op: Op, id: TokenId) {
    op.ConsumeOp? && op.id == id && Spendable(tokens, id, op.now)
  }

  /** All the uses ever minted under the identifier. */
  function MintedUses(idOf: Bytes -> TokenId, ops: seq<Op>, id: TokenId): nat {
    if ops == [] then 0
    else MintedUses(idOf, ops[..|ops| - 1], id) + if Mints(idOf, ops[|ops| - 1], id) then ops[|ops| - 1].count else 0
  }

  /** How many times it was consumed with success. */
  function Spent(idOf: Bytes -> TokenId, tokens: Pending, ops: seq<Op>, id: TokenId): nat {
    if ops == [] then 0
    else
      var init := ops[..|ops| - 1];
      Spent(idOf, tokens, init, id) + if Spends(idOf, After(idOf, tokens, init), ops[|ops| - 1], id) then 1 else 0
  }

  lemma OneMoreOp(idOf: Bytes -> TokenId, tokens: Pending, ops: seq<Op>, op: Op, id: TokenId)
    ensures var before := After(idOf, tokens, ops);
      && After(idOf, tokens, ops + [op]) == Perform(idOf, before, op)
      && Spent(idOf, tokens, ops + [op], id) == Spent(idOf, tokens, ops, id) +
        (if Spends(idOf, before, op, id) then 1 else 0)
      && MintedUses(idOf, ops + [op], id) == MintedUses(idOf, ops, id) + (if Mints(idOf, op, id) then op.count else 0)
  {
    assert (ops + [op])[..|ops|] == ops;
  }

  /** A pending token comes from a mint that set its expiry. */
  ghost predicate FromMint(idOf: Bytes -> TokenId, ops: seq<Op>, id: TokenId, t: Token) {
    && t.uses > 0
    && exists j :: 0 <= j < |ops| && Mints(idOf, ops[j], id)
                   && t.expires == ops[j].now + ops[j].ttl && t.key == ops[j].key
  }

  lemma {:induction false} UsesAreConserved(idOf: Bytes -> TokenId, ops: seq<Op>, id: TokenId)
    ensures var tokens := After(idOf, map[], ops);
      && Spent(idOf, map[], ops, id) + (if id in tokens then tokens[id].uses else 0) <= MintedUses(idOf, ops, id)
      && (id in tokens ==> FromMint(idOf, ops, id, tokens[id]))
  {
    if ops != [] {
      var init, op := ops[..|ops| - 1], ops[|ops| - 1];
      UsesAreConserved(idOf, init, id);
      var before, after := After(idOf, map[], init), After(idOf, map[], ops);
      if id in after {
        if Mints(idOf, op, id) {
          assert Mints(idOf, ops[|ops| - 1], id);
        } else {
          assert id in before;
          var j :| 0 <= j < |init| && Mints(idOf, init[j], id) && before[id].expires == init[j].now + init[j].ttl
            && before[id].key == init[j].key;
          assert init[j] == ops[j];
        }
      }
    }
  }

  /**
   Whatever is minted, looked up and consumed, in whatever order and under whatever
   clock, a token is never consumed more often than uses were minted for it.
  */
  lemma NeverOverspent(idOf: Bytes -> TokenId, ops: seq<Op>, id: TokenId)
    ensures Spent(idOf, map[], ops, id) <= MintedUses(idOf, ops, id)
  {
    UsesAreConserved(idOf, ops, id);
  }

  /** A consume that succeeds does so before the expiry of a mint of that token. */
  lemma NothingIsSpentAfterExpiry(idOf: Bytes -> TokenId, ops: seq<Op>, k: nat)
    requires k < |ops| && ops[k].ConsumeOp? && Spendable(After(idOf, map[], ops[..k]), ops[k].id, ops[k].now)
    ensures exists j :: 0 <= j < k && Mints(idOf, ops[j], ops[k].id) && ops[k].now < ops[j].now + ops[j].ttl
  {
    var past, id := ops[..k], ops[k].id;
    UsesAreConserved(idOf, past, id);
    var t := After(idOf, map[], past)[id];
    var j :| 0 <= j < |past| && Mints(idOf, past[j], id) && t.expires == past[j].now + past[j].ttl
      && t.key == past[j].key;
    assert past[j] == ops[j];
  }

  function Attempts(ops: seq<Op>, id: TokenId): nat {
    if ops == [] then 0
    else Attempts(ops[..|ops| - 1], id) + if ops[|ops| - 1].ConsumeOp? && ops[|ops| - 1].id == id then 1 else 0
  }

  /** Every reading of the clock that can touch the token comes before its expiry, and it is not minted again. */
  predicate Alive(idOf: Bytes -> TokenId, op: Op, id: TokenId, expires: int) {
    match op
    case MintOp(key, ttl, count, gcNow, _) => idOf(key) != id && gcNow < expires
    case LookupOp(_, now) => now < expires
    case ConsumeOp(_, now) => now < expires
  }

  /** Until it expires a token is worth exactly its uses: as many attempts succeed as there are uses, and no more. */
  lemma {:induction false} WorthItsUses(idOf: Bytes -> TokenId, tokens: Pending, ops: seq<Op>, id: TokenId)
    requires id in tokens && tokens[id].uses > 0
    requires forall i :: 0 <= i < |ops| ==> Alive(idOf, ops[i], id, tokens[id].expires)
    ensures var uses, tries := tokens[id].uses, Attempts(ops, id);
      && Spent(idOf, tokens, ops, id) == (if tries < uses then tries else uses)
      && (if tries < uses
          then id in After(idOf, tokens, ops) && After(idOf, tokens, ops)[id] == tokens[id].(uses := uses - tries)
          else id !in After(idOf, tokens, ops))
  {
    if ops != [] {
      var init := ops[..|ops| - 1];
      forall i | 0 <= i < |init| ensures Alive(idOf, init[i], id, tokens[id].expires) {
        assert init[i] == ops[i];
      }
      WorthItsUses(idOf, tokens, init, id);
      assert Alive(idOf, ops[|ops| - 1], id, tokens[id].expires);
    }
  }

  /**
   From a mint on, whatever was pending before: of the attempts to consume the new token
   before its time is up, exactly as many succeed as the uses it was minted with.
  */
  lemma MintIsWorthItsUses(idOf: Bytes -> TokenId, tokens: Pending, key: Bytes, ttl: int, uses: int, gcNow: int,
      now: int, ops: seq<Op>)
    requires ttl > 0 && uses > 0
    requires forall i :: 0 <= i < |ops| ==> Alive(idOf, ops[i], idOf(key), now + ttl)
    ensures var tries := Attempts(ops, idOf(key));
      Spent(idOf, AfterMint(idOf, tokens, key, ttl, uses, gcNow, now), ops, idOf(key)) ==
        (if tries < uses then tries else uses)
  {
    WorthItsUses(idOf, AfterMint(idOf, tokens, key, ttl, uses, gcNow, now), ops, idOf(key));
  }

  /** And a lookup before then finds its key as long as a use is left. */
  lemma MintedKeyIsFound(idOf: Bytes -> TokenId, tokens: Pending, key: Bytes, ttl: int, uses: int, gcNow: int, now: int,
      ops: seq<Op>, clock: int)
    requires ttl > 0 && uses > 0 && clock < now + ttl
    requires forall i :: 0 <= i < |ops| ==> Alive(idOf, ops[i], idOf(key), now + ttl)
    ensures var after := After(idOf, AfterMint(idOf, tokens, key, ttl, uses, gcNow, now), ops);
      && (Spendable(after, idOf(key), clock) <==> Attempts(ops, idOf(key)) < uses)
      && (Spendable(after, idOf(key), clock) ==> after[idOf(key)].key == key)
  {
    WorthItsUses(idOf, AfterMint(idOf, tokens, key, ttl, uses, gcNow, now), ops, idOf(key));
  }

  lemma {:induction false} FirstThenRest(idOf: Bytes -> TokenId, tokens: Pending, op: Op, ops: seq<Op>, id: TokenId)
    ensures var next := Perform(idOf, tokens, op);
      && After(idOf, tokens, [op] + ops) == After(idOf, next, ops)
      && Spent(idOf, tokens, [op] + ops, id) ==
        (if Spends(idOf, tokens, op, id) then 1 else 0) + Spent(idOf, next, ops, id)
      && MintedUses(idOf, [op] + ops, id) == (if Mints(idOf, op, id) then op.count else 0) + MintedUses(idOf, ops, id)
  {
    OneMoreOp(idOf, tokens, [], op, id);
    if ops == [] {
      assert [op] + ops == [] + [op];
    } else {
      var init, last := ops[..|ops| - 1], ops[|ops| - 1];
      FirstThenRest(idOf, tokens, op, init, id);
      OneMoreOp(idOf, tokens, [op] + init, last, id);
      assert [op] + ops == ([op] + init) + [last];
    }
  }

  lemma {:induction false} NotMintedAgain(idOf: Bytes -> TokenId, ops: seq<Op>, id: TokenId, expires: int)
    requires forall i :: 0 <= i < |ops| ==> Alive(idOf, ops[i], id, expires)
    ensures MintedUses(idOf, ops, id) == 0
  {
    if ops != [] {
      assert Alive(idOf, ops[|ops| - 1], id, expires);
      NotMintedAgain(idOf, ops[..|ops| - 1], id, expires);
    }
  }

  /** The bound is met: minted once and tried often enough in time, a token is spent as often as it was minted for. */
  lemma MintedUsesCanBeSpent(idOf: Bytes -> TokenId, key: Bytes, ttl: int, uses: int, gcNow: int, now: int,
      ops: seq<Op>)
    requires ttl > 0 && uses > 0 && Attempts(ops, idOf(key)) >= uses
    requires forall i :: 0 <= i < |ops| ==> Alive(idOf, ops[i], idOf(key), now + ttl)
    ensures var run := [MintOp(key, ttl, uses, gcNow, now)] + ops;
      Spent(idOf, map[], run, idOf(key)) == MintedUses(idOf, run, idOf(key)) == uses
  {
    FirstThenRest(idOf, map[], MintOp(key, ttl, uses, gcNow, now), ops, idOf(key));
    MintIsWorthItsUses(idOf, map[], key, ttl, uses, gcNow, now, ops);
    NotMintedAgain(idOf, ops, idOf(key), now + ttl);
  }
}
