/**
 * What a block above the head does to the refs, told by the stored headers below it: when it must
 * change them, to what, and when it must not.
 */
module BranchWalk {
  import opened GoInts
  import opened EthTypes
  import opened ForkChoice

  /** Enough blocks of a branch above the old head make a chain of their own. */
  predicate Suffices(cfg: Config, gap: nat, n: nat) {
    n == cfg.minValidChain && n <= gap
  }

  /**
   * n blocks, of which gap are above the old head, lead back to the old refs: their foot is the ref as
   * many places down as they are blocks below its head, or there is no such ref, or these are maxReorg.
   */
  predicate LeadsBack(cfg: Config, refs: seq<BlockRef>, gap: nat, n: nat, foot: Hash) {
    gap <= n <= gap + |refs| && (n == gap + cfg.maxReorg || n == gap + |refs| || foot == refs[n - gap].hash)
  }

  predicate Ends(cfg: Config, refs: seq<BlockRef>, gap: nat, n: nat, foot: Hash) {
    Suffices(cfg, gap, n) || LeadsBack(cfg, refs, gap, n, foot)
  }

  /** The blocks from `header` down, all of them stored, none of which but the last ends the walk. */
  ghost predicate WalkedDown(cfg: Config, refs: seq<BlockRef>, headers: HeaderStore, header: Header, branch: seq<BlockRef>)
    requires refs != [] && header.number > refs[0].height
  {
    && Branch(headers, branch, header.number, HashOf(header))
    && forall k :: 0 < k < |branch| ==>
         !Ends(cfg, refs, header.number - refs[0].height, k, Foot(branch[..k], HashOf(header)))
  }

  ghost predicate Arrives(cfg: Config, refs: seq<BlockRef>, headers: HeaderStore, header: Header, branch: seq<BlockRef>)
    requires refs != [] && header.number > refs[0].height
  {
    && branch != [] && WalkedDown(cfg, refs, headers, header, branch)
    && Ends(cfg, refs, header.number - refs[0].height, |branch|, Foot(branch, HashOf(header)))
  }

  /** The header below the blocks walked so far is not stored at the next height. */
  ghost predicate BreaksOff(cfg: Config, refs: seq<BlockRef>, headers: HeaderStore, header: Header, branch: seq<BlockRef>)
    requires refs != [] && header.number > refs[0].height
  {
    && WalkedDown(cfg, refs, headers, header, branch)
    && (branch != [] ==> !Ends(cfg, refs, header.number - refs[0].height, |branch|, Foot(branch, HashOf(header))))
    && forall ref: BlockRef :: ref.height == Down(header.number, |branch|) && ref.hash == Foot(branch, HashOf(header)) ==>
         FindHeader(headers, ref.height, ref.hash).None?
  }

  /** What stays of the old refs, once a direct extension has been put in front of them. */
  function Kept(cfg: Config, refs: seq<BlockRef>, header: Header, n: nat): seq<BlockRef>
    requires refs != [] && header.number > refs[0].height
  {
    var gap := header.number - refs[0].height;
    if Suffices(cfg, gap, n) || n == gap + cfg.maxReorg || n < gap || n > gap + |refs| then []
    else if n == gap then Extended(refs, header)
    else refs[n - gap..]
  }

  /** The refs after the statement that appends a direct extension. */
  function Extended(refs: seq<BlockRef>, header: Header): seq<BlockRef>
    requires refs != []
  {
    if header.number == refs[0].height + 1 && header.parentHash == refs[0].hash then [RefOf(header)] + refs else refs
  }

  lemma FootNext(headers: HeaderStore, branch: seq<BlockRef>, height: U64, hash: Hash, k: nat)
    requires Branch(headers, branch, height, hash) && k < |branch|
    ensures branch[k].hash == Foot(branch[..k], hash) && branch[k].hash.HashOf?
    ensures Foot(branch[..k + 1], hash) == branch[k].hash.header.parentHash
    ensures branch[..k + 1] == branch[..k] + [BlockRef(branch[k].height, Foot(branch[..k], hash))]
  {
    assert FindHeader(headers, branch[k].height, branch[k].hash).Some?;
    if k > 0 {
      assert IsParent(branch[k - 1].hash, branch[k - 1 + 1].hash);
    }
  }

  lemma {:induction false} FillGapFollows(cfg: Config, refs: seq<BlockRef>, headers: HeaderStore, header: Header,
          branch: seq<BlockRef>, k: nat)
    requires Sane(cfg) && refs != [] && header.number > refs[0].height
    requires Arrives(cfg, refs, headers, header, branch) || BreaksOff(cfg, refs, headers, header, branch)
    requires k <= |branch| && k <= header.number - refs[0].height && (k == 0 || k < cfg.minValidChain)
    ensures var gap, hash := header.number - refs[0].height, HashOf(header);
            FillGap(headers, refs[0].height, cfg.minValidChain, header.number - k, Foot(branch[..k], hash), branch[..k])
            == if Suffices(cfg, gap, |branch|) then Jump(branch)
               else if |branch| < gap then Missing
               else Met(branch[..gap], Foot(branch[..gap], hash))
    decreases |branch| - k
  {
    var gap, hash := header.number - refs[0].height, HashOf(header);
    if k == |branch| {
      assert branch[..k] == branch;
      if k < gap {
        var ref := BlockRef(header.number - k, Foot(branch, hash));
        assert ref.height == Down(header.number, |branch|);
      }
    } else if k < gap {
      FootNext(headers, branch, header.number, hash, k);
      assert FindHeader(headers, branch[k].height, branch[k].hash).Some?;
      if k + 1 < cfg.minValidChain {
        FillGapFollows(cfg, refs, headers, header, branch, k + 1);
      } else {
        assert Suffices(cfg, gap, k + 1);
        assert k + 1 == |branch| && branch[..k + 1] == branch;
      }
    } else {
      assert k == gap && !Suffices(cfg, gap, |branch|);
    }
  }

  lemma NextDown(top: U64, k: nat)
    requires k < top + TWO_64
    ensures 0 <= Down(top, k) < TWO_64 && ToU64(Down(top, k) - 1) == Down(top, k + 1)
  {
  }

  /** The look-back as it stands with the first k blocks of a branch collected. */
  ghost function LookBackAt(cfg: Config, refs: seq<BlockRef>, headers: HeaderStore, header: Header,
          branch: seq<BlockRef>, k: nat): Outcome
    requires refs != [] && header.number > refs[0].height
    requires header.number - refs[0].height <= k <= |branch| && k - (header.number - refs[0].height) <= |refs|
    requires 0 <= Down(header.number, k) < TWO_64
  {
    LookBack(headers, refs, cfg.maxReorg, k - (header.number - refs[0].height), Down(header.number, k),
             Foot(branch[..k], HashOf(header)), branch[..k])
  }

  lemma LookBackStep(cfg: Config, refs: seq<BlockRef>, headers: HeaderStore, header: Header, branch: seq<BlockRef>,
          k: nat)
    requires refs != [] && header.number > refs[0].height && Branch(headers, branch, header.number, HashOf(header))
    requires header.number - refs[0].height <= k < |branch| && k < header.number + TWO_64 - 1
    requires var i := k - (header.number - refs[0].height); i < |refs| && Foot(branch[..k], HashOf(header)) != refs[i].hash
    ensures 0 <= Down(header.number, k) < TWO_64 && 0 <= Down(header.number, k + 1) < TWO_64
    ensures LookBackAt(cfg, refs, headers, header, branch, k)
            == if k + 1 >= header.number - refs[0].height + cfg.maxReorg then Reconciled(branch[..k + 1], [])
               else LookBackAt(cfg, refs, headers, header, branch, k + 1)
  {
    FootNext(headers, branch, header.number, HashOf(header), k);
    assert FindHeader(headers, branch[k].height, branch[k].hash).Some?;
    NextDown(header.number, k);
    NextDown(header.number, k + 1);
  }

  /** Where the collected branch ends, the look-back does. */
  lemma LookBackStops(cfg: Config, refs: seq<BlockRef>, headers: HeaderStore, header: Header, branch: seq<BlockRef>)
    requires refs != [] && header.number > refs[0].height
    requires Arrives(cfg, refs, headers, header, branch) || BreaksOff(cfg, refs, headers, header, branch)
    requires var gap := header.number - refs[0].height;
             gap < cfg.minValidChain && gap <= |branch| < gap + cfg.maxReorg && |branch| <= gap + |refs|
    requires |branch| == header.number - refs[0].height ==> Foot(branch, HashOf(header)) != refs[0].hash
    requires 0 <= Down(header.number, |branch|) < TWO_64
    ensures LookBackAt(cfg, refs, headers, header, branch, |branch|)
            == if Arrives(cfg, refs, headers, header, branch) then Reconciled(branch, Kept(cfg, refs, header, |branch|)) else Unreconciled
  {
    var ref := BlockRef(Down(header.number, |branch|), Foot(branch, HashOf(header)));
    assert branch[..|branch|] == branch;
    assert refs[|refs|..] == [];
  }

  lemma {:induction false} LookBackFollows(cfg: Config, refs: seq<BlockRef>, headers: HeaderStore, header: Header,
          branch: seq<BlockRef>, k: nat)
    requires Sane(cfg) && refs != [] && header.number > refs[0].height
    requires Arrives(cfg, refs, headers, header, branch) || BreaksOff(cfg, refs, headers, header, branch)
    requires var gap := header.number - refs[0].height;
             gap < cfg.minValidChain && gap <= k <= |branch| && k < gap + cfg.maxReorg && k <= gap + |refs|
    requires k == header.number - refs[0].height ==> Foot(branch[..k], HashOf(header)) != refs[0].hash
    ensures 0 <= Down(header.number, k) < TWO_64
    ensures LookBackAt(cfg, refs, headers, header, branch, k)
            == if Arrives(cfg, refs, headers, header, branch) then Reconciled(branch, Kept(cfg, refs, header, |branch|)) else Unreconciled
    decreases |branch| - k
  {
    var gap, hash := header.number - refs[0].height, HashOf(header);
    NextDown(header.number, k);
    if k == |branch| {
      assert branch[..k] == branch;
      LookBackStops(cfg, refs, headers, header, branch);
    } else {
      assert k > gap ==> !Ends(cfg, refs, gap, k, Foot(branch[..k], hash));
      LookBackStep(cfg, refs, headers, header, branch, k);
      if k + 1 < gap + cfg.maxReorg {
        LookBackFollows(cfg, refs, headers, header, branch, k + 1);
      } else {
        assert Ends(cfg, refs, gap, k + 1, Foot(branch[..k + 1], hash));
        assert k + 1 == |branch| && branch[..k + 1] == branch;
      }
    }
  }

  /** A stored direct extension is a walk of one block. */
  lemma ExtensionWalk(cfg: Config, refs: seq<BlockRef>, headers: HeaderStore, header: Header, branch: seq<BlockRef>)
    requires Sane(cfg) && refs != [] && header.number == refs[0].height + 1 && header.parentHash == refs[0].hash
    requires WalkedDown(cfg, refs, headers, header, branch)
    ensures |branch| <= 1 && (branch != [] ==> branch == [RefOf(header)] && Arrives(cfg, refs, headers, header, branch))
    ensures branch != [] ==> Stored(headers, header)
  {
    if branch != [] {
      FootNext(headers, branch, header.number, HashOf(header), 0);
      assert FindHeader(headers, branch[0].height, branch[0].hash).Some?;
      assert branch[..1] == [RefOf(header)] && Ends(cfg, refs, 1, 1, Foot(branch[..1], HashOf(header)));
    }
  }

  /** What the general case of the update makes of a walk that is no direct extension. */
  lemma ReconcileFollows(cfg: Config, refs: seq<BlockRef>, headers: HeaderStore, header: Header, branch: seq<BlockRef>)
    requires Sane(cfg) && refs != [] && header.number > refs[0].height && Extended(refs, header) == refs
    requires Arrives(cfg, refs, headers, header, branch) || BreaksOff(cfg, refs, headers, header, branch)
    ensures Reconcile(cfg, refs[0], refs, headers, header.number, HashOf(header))
            == if Arrives(cfg, refs, headers, header, branch) then Reconciled(branch, Kept(cfg, refs, header, |branch|)) else Unreconciled
  {
    var gap, hash := header.number - refs[0].height, HashOf(header);
    assert branch[..0] == [];
    FillGapFollows(cfg, refs, headers, header, branch, 0);
    if !Suffices(cfg, gap, |branch|) && |branch| >= gap {
      if Foot(branch[..gap], hash) == refs[0].hash {
        assert Ends(cfg, refs, gap, gap, Foot(branch[..gap], hash));
        assert |branch| == gap && branch[..gap] == branch;
      } else {
        GapIsShort(cfg, refs, headers, header, branch);
        LookBackFollows(cfg, refs, headers, header, branch, gap);
      }
    }
  }

  lemma GapIsShort(cfg: Config, refs: seq<BlockRef>, headers: HeaderStore, header: Header, branch: seq<BlockRef>)
    requires Sane(cfg) && refs != [] && header.number > refs[0].height
    requires Arrives(cfg, refs, headers, header, branch) || BreaksOff(cfg, refs, headers, header, branch)
    requires |branch| >= header.number - refs[0].height && !Suffices(cfg, header.number - refs[0].height, |branch|)
    ensures header.number - refs[0].height < cfg.minValidChain
  {
    var gap, n := header.number - refs[0].height, cfg.minValidChain;
    if gap >= n {
      assert n < |branch| ==> Ends(cfg, refs, gap, n, Foot(branch[..n], HashOf(header)));
    }
  }

  /**
   * A block above the head whose stored ancestors lead far enough down changes the refs: they become
   * these blocks in front of what is kept, and all of these blocks are counted.
   */
  lemma UpdateArrives(cfg: Config, refs: seq<BlockRef>, headers: HeaderStore, header: Header, branch: seq<BlockRef>)
    requires Sane(cfg) && refs != [] && header.number > refs[0].height && Arrives(cfg, refs, headers, header, branch)
    ensures Update(cfg, refs, headers, header.number, HashOf(header), header.parentHash)
            == (branch + Kept(cfg, refs, header, |branch|), |branch|)
  {
    if Extends(refs, header.number, header.parentHash) {
      ExtensionWalk(cfg, refs, headers, header, branch);
      ReconcileExtension(cfg, refs, Extended(refs, header), headers, header);
    } else {
      ReconcileFollows(cfg, refs, headers, header, branch);
    }
  }

  /** One with an ancestor missing before that changes nothing, and nothing is counted. */
  lemma UpdateBreaksOff(cfg: Config, refs: seq<BlockRef>, headers: HeaderStore, header: Header, branch: seq<BlockRef>)
    requires Sane(cfg) && refs != [] && header.number > refs[0].height && BreaksOff(cfg, refs, headers, header, branch)
    ensures Update(cfg, refs, headers, header.number, HashOf(header), header.parentHash) == (Extended(refs, header), 0)
  {
    if Extends(refs, header.number, header.parentHash) {
      ExtensionWalk(cfg, refs, headers, header, branch);
      assert branch == [];
      FillGapFollows(cfg, refs, headers, header, [], 0);
    } else {
      ReconcileFollows(cfg, refs, headers, header, branch);
    }
  }

  lemma WalkGrows(cfg: Config, refs: seq<BlockRef>, headers: HeaderStore, header: Header, branch: seq<BlockRef>, ref: BlockRef)
    requires refs != [] && header.number > refs[0].height && WalkedDown(cfg, refs, headers, header, branch)
    requires branch != [] ==> !Ends(cfg, refs, header.number - refs[0].height, |branch|, Foot(branch, HashOf(header)))
    requires ref.height == Down(header.number, |branch|) && ref.hash == Foot(branch, HashOf(header))
    requires FindHeader(headers, ref.height, ref.hash).Some?
    ensures WalkedDown(cfg, refs, headers, header, branch + [ref])
  {
    var longer, hash := branch + [ref], HashOf(header);
    BranchGrows(headers, branch, header.number, hash, ref.height);
    assert longer == branch + [BlockRef(ref.height, Foot(branch, hash))];
    forall k | 0 < k < |longer| ensures !Ends(cfg, refs, header.number - refs[0].height, k, Foot(longer[..k], hash)) {
      assert longer[..k] == branch[..k] && branch[..|branch|] == branch;
    }
  }

  /** Every walk arrives or breaks off. */
  lemma {:induction false} WalkGoesOn(cfg: Config, refs: seq<BlockRef>, headers: HeaderStore, header: Header, branch: seq<BlockRef>)
      returns (whole: seq<BlockRef>)
    requires Sane(cfg) && refs != [] && header.number > refs[0].height && WalkedDown(cfg, refs, headers, header, branch)
    requires branch != [] ==> !Ends(cfg, refs, header.number - refs[0].height, |branch|, Foot(branch, HashOf(header)))
    requires |branch| <= header.number - refs[0].height + |refs|
    ensures branch <= whole && (Arrives(cfg, refs, headers, header, whole) || BreaksOff(cfg, refs, headers, header, whole))
    decreases header.number - refs[0].height + |refs| - |branch|
  {
    var gap, hash := header.number - refs[0].height, HashOf(header);
    if ref: BlockRef :| ref.height == Down(header.number, |branch|) && ref.hash == Foot(branch, hash)
                        && FindHeader(headers, ref.height, ref.hash).Some? {
      whole := branch + [ref];
      WalkGrows(cfg, refs, headers, header, branch, ref);
      if !Ends(cfg, refs, gap, |whole|, Foot(whole, hash)) {
        whole := WalkGoesOn(cfg, refs, headers, header, whole);
      }
    } else {
      whole := branch;
    }
  }

  lemma WalkExists(cfg: Config, refs: seq<BlockRef>, headers: HeaderStore, header: Header) returns (branch: seq<BlockRef>)
    requires Sane(cfg) && refs != [] && header.number > refs[0].height
    ensures Arrives(cfg, refs, headers, header, branch) || BreaksOff(cfg, refs, headers, header, branch)
  {
    branch := WalkGoesOn(cfg, refs, headers, header, []);
  }

  /** So an update is counted exactly when the stored ancestors of a block above the head lead far enough down. */
  lemma UpdateCountsIff(cfg: Config, refs: seq<BlockRef>, headers: HeaderStore, header: Header)
    requires Sane(cfg) && refs != []
    ensures Update(cfg, refs, headers, header.number, HashOf(header), header.parentHash).1 > 0
            <==> header.number > refs[0].height && exists branch :: Arrives(cfg, refs, headers, header, branch)
  {
    if header.number > refs[0].height {
      var branch := WalkExists(cfg, refs, headers, header);
      if Arrives(cfg, refs, headers, header, branch) {
        UpdateArrives(cfg, refs, headers, header, branch);
      } else {
        UpdateBreaksOff(cfg, refs, headers, header, branch);
        forall other | Arrives(cfg, refs, headers, header, other) ensures false {
          UpdateArrives(cfg, refs, headers, header, other);
        }
      }
    }
  }

  /** A first block becomes the chain; one not above the head changes nothing, a block 0 on the highest head apart. */
  lemma UpdateElsewhere(cfg: Config, refs: seq<BlockRef>, headers: HeaderStore, header: Header)
    ensures var (refs', n) := Update(cfg, refs, headers, header.number, HashOf(header), header.parentHash);
            && (refs == [] ==> refs' == [RefOf(header)] && n == 1)
            && (refs != [] && header.number <= refs[0].height ==>
                  n == 0 && refs' == if WrapsOnto(refs, header.number, header.parentHash) then [RefOf(header)] + refs else refs)
  {
  }

  /** The step the comment describes differs in one case: a direct extension is put in front, once, and nothing else. */
  lemma IntendedFollows(cfg: Config, refs: seq<BlockRef>, headers: HeaderStore, header: Header, branch: seq<BlockRef>)
    requires Sane(cfg) && refs != []
    ensures var (refs', n) := UpdateIntended(cfg, refs, headers, header.number, HashOf(header), header.parentHash);
            if Extends(refs, header.number, header.parentHash) then refs' == [RefOf(header)] + refs && n == 1
            else if header.number <= refs[0].height then refs' == refs && n == 0
            else
              && (Arrives(cfg, refs, headers, header, branch) ==> refs' == branch + Kept(cfg, refs, header, |branch|) && n == |branch|)
              && (BreaksOff(cfg, refs, headers, header, branch) ==> refs' == refs && n == 0)
  {
    if !Extends(refs, header.number, header.parentHash) && header.number > refs[0].height {
      assert Extended(refs, header) == refs;
      if Arrives(cfg, refs, headers, header, branch) {
        UpdateArrives(cfg, refs, headers, header, branch);
      } else if BreaksOff(cfg, refs, headers, header, branch) {
        UpdateBreaksOff(cfg, refs, headers, header, branch);
      }
    }
  }
}
