/** Which heap blocks a client holds: every pointer it keeps is a live block of known kind. */
module Claims {
  import opened Machine
  import opened HeapBlocks

  /** What a block of the RAM file system holds. */
  datatype Kind = NodeBlock | FileBlock(node: u32) | DataBlock(file: u32)

  datatype Claim = Claim(kind: Kind, block: Block)

  type Ledger = map<u32, Claim>

  ghost function Held(claims: Ledger): set<Block> {
    set p | p in claims :: claims[p].block
  }

  /** Every claim is on a live block at the address it says. */
  ghost predicate Balanced(claims: Ledger, live: set<Block>, base: u32) {
    forall p | p in claims :: p > base && claims[p].block.Payload() == p - base && claims[p].block in live
  }

  /** The live blocks that others hold. */
  ghost function Rest(claims: Ledger, live: set<Block>): set<Block> {
    live - Held(claims)
  }

  lemma ClaimAdded(claims: Ledger, live: set<Block>, base: u32, p: u32, kind: Kind, b: Block)
    requires Balanced(claims, live, base) && b !in live && b.Payload() == p - base && p !in claims
    ensures var claims' := claims[p := Claim(kind, b)];
      Balanced(claims', live + {b}, base) && Rest(claims', live + {b}) == Rest(claims, live)
  {
    var claims' := claims[p := Claim(kind, b)];
    assert forall q | q in claims :: claims'[q] == claims[q];
    assert Held(claims') == Held(claims) + {b} by {
      assert claims'[p].block == b;
      forall x | x in Held(claims) ensures x in Held(claims') {
        var q :| q in claims && claims[q].block == x;
        assert claims'[q].block == x;
      }
    }
  }

  lemma ClaimDropped(claims: Ledger, live: set<Block>, base: u32, p: u32)
    requires Balanced(claims, live, base) && p in claims
    ensures var claims', live' := claims - {p}, live - {claims[p].block};
      Balanced(claims', live', base) && Rest(claims', live') == Rest(claims, live)
  {
    var claims', b := claims - {p}, claims[p].block;
    assert b in Held(claims);
    assert Held(claims') == Held(claims) - {b} by {
      forall x | x in Held(claims) && x != b ensures x in Held(claims') {
        var q :| q in claims && claims[q].block == x;
        assert q in claims' && claims'[q].block == x;
      }
      forall x | x in Held(claims') ensures x in Held(claims) && x != b {
        var q :| q in claims' && claims'[q].block == x;
        assert claims[q].block == x && q != p;
      }
    }
  }

  /** The claims stand as long as no one else frees what is claimed. */
  lemma OthersBalanced(claims: Ledger, live: set<Block>, live': set<Block>, base: u32)
    requires Balanced(claims, live, base)
    ensures Balanced(claims, live', base) <==> Held(claims) <= live'
  {
    if Held(claims) <= live' {
      assert forall p | p in claims :: claims[p].block in Held(claims);
    }
  }

  lemma HeldLive(claims: Ledger, live: set<Block>, base: u32)
    requires Balanced(claims, live, base)
    ensures Held(claims) <= live
  {
  }

  lemma UnclaimedNotHeld(claims: Ledger, live: set<Block>, base: u32, p: u32, b: Block)
    requires Balanced(claims, live, base) && p !in claims && b.Payload() == p - base
    ensures b !in Held(claims)
  {
  }

  /** Equal claims beside equal other holdings mean an identical block list. */
  lemma SameClaimsSameHeap(claims: Ledger, bs: Blocks, bs': Blocks, base: u32)
    requires Valid(bs) && Valid(bs') && Rest(claims, Live(bs)) == Rest(claims, Live(bs'))
    requires Balanced(claims, Live(bs), base) && Balanced(claims, Live(bs'), base)
    ensures bs == bs'
  {
    OthersBalanced(claims, Live(bs), Live(bs), base);
    OthersBalanced(claims, Live(bs'), Live(bs'), base);
    assert Live(bs) == Rest(claims, Live(bs)) + Held(claims);
    assert Live(bs') == Rest(claims, Live(bs')) + Held(claims);
    Canonical(bs, bs');
  }
}
