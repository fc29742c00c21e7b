/**
 * The fork-choice rule: how the canonical refs (newest first) change when a confirmed
 * block arrives, and what every such change keeps.
 */
module ForkChoice {
  import opened GoInts
  import opened EthTypes

  type HeaderStore = map<U64, seq<Header>>

  datatype Config = Config(maxReorg: int, minValidChain: int, maxSize: nat, confirmations: nat)

  // Lookups in the header store

  function FindHeader(headers: HeaderStore, height: U64, hash: Hash): Option<Header> {
    if hash.HashOf? && height in headers && hash.header in headers[height] then Some(hash.header) else None
  }

  predicate Stored(headers: HeaderStore, header: Header) {
    header.number in headers && header in headers[header.number]
  }

  /** Headers are filed under their own number. */
  ghost predicate Filed(headers: HeaderStore) {
    forall n, x :: n in headers && x in headers[n] ==> x.number == n
  }

  // Chains of refs

  /** A ref to a stored header, at the header's own number. */
  predicate GoodRef(headers: HeaderStore, ref: BlockRef) {
    ref.hash.HashOf? && ref == RefOf(ref.hash.header) && Stored(headers, ref.hash.header)
  }

  ghost predicate GoodRefs(headers: HeaderStore, refs: seq<BlockRef>) {
    forall i :: 0 <= i < |refs| ==> GoodRef(headers, refs[i])
  }

  predicate Child(above: BlockRef, below: BlockRef) {
    IsParent(above.hash, below.hash) && above.height == below.height + 1
  }

  /** Adjacent refs are parent-linked, one height apart. */
  ghost predicate Strict(refs: seq<BlockRef>) {
    forall i :: 0 <= i < |refs| - 1 ==> Child(refs[i], refs[i + 1])
  }

  /** Adjacent refs are identical, or parent-linked and one height apart. */
  ghost predicate Linked(refs: seq<BlockRef>) {
    forall i :: 0 <= i < |refs| - 1 ==> refs[i] == refs[i + 1] || Child(refs[i], refs[i + 1])
  }

  /** Adjacent refs are identical, or parent-linked at whatever heights. */
  ghost predicate HashLinked(refs: seq<BlockRef>) {
    forall i :: 0 <= i < |refs| - 1 ==> refs[i] == refs[i + 1] || IsParent(refs[i].hash, refs[i + 1].hash)
  }

  /** No ref is above the head. */
  ghost predicate HeadIsHighest(refs: seq<BlockRef>) {
    forall i :: 0 <= i < |refs| ==> refs[i].height <= refs[0].height
  }

  /** How far a height lies below another, in 64 bits. */
  function Below(head: U64, height: U64): U64 {
    if height <= head then head - height else head - height + TWO_64
  }

  /** No ref is deeper below the head, in heights, than in positions. */
  ghost predicate Shallow(refs: seq<BlockRef>) {
    forall i :: 0 <= i < |refs| ==> Below(refs[0].height, refs[i].height) <= i
  }

  ghost predicate IsSuffix(s: seq<BlockRef>, refs: seq<BlockRef>) {
    |s| <= |refs| && s == refs[|refs| - |s|..]
  }

  // The update

  datatype Walk = Missing | Jump(entries: seq<BlockRef>) | Met(entries: seq<BlockRef>, hash: Hash)

  /** Walk from the new block down to the height of the old head. */
  function FillGap(headers: HeaderStore, base: U64, minValid: int, height: U64, hash: Hash,
          entries: seq<BlockRef>): Walk
    decreases height - base
  {
    if height <= base then Met(entries, hash)
    else
      match FindHeader(headers, height, hash)
      case None => Missing
      case Some(header) =>
        var entries' := entries + [BlockRef(height, hash)];
        if |entries'| >= minValid then Jump(entries')
        else FillGap(headers, base, minValid, height - 1, header.parentHash, entries')
  }

  /** New refs in front of what is kept of the old ones. */
  datatype Outcome = Unreconciled | Reconciled(added: seq<BlockRef>, kept: seq<BlockRef>)

  /** Look back along the old refs, from index i, for the ref the new branch stands on. */
  function LookBack(headers: HeaderStore, refs: seq<BlockRef>, maxReorg: int, i: nat, height: U64, hash: Hash,
          entries: seq<BlockRef>): Outcome
    requires i <= |refs|
    decreases |refs| - i
  {
    if i == |refs| || hash == refs[i].hash then Reconciled(entries, refs[i..])
    else
      match FindHeader(headers, height, hash)
      case None => Unreconciled
      case Some(header) =>
        var entries' := entries + [BlockRef(height, hash)];
        if i + 1 >= maxReorg then Reconciled(entries', [])
        else LookBack(headers, refs, maxReorg, i + 1, ToU64(height - 1), header.parentHash, entries')
  }

  predicate Extends(refs: seq<BlockRef>, height: U64, parentHash: Hash)
    requires refs != []
  {
    ToU64(refs[0].height + 1) == height && refs[0].hash == parentHash
  }

  /** What a block above the old head does: `head` is the old head, `refs` the refs it is merged with. */
  function Reconcile(cfg: Config, head: BlockRef, refs: seq<BlockRef>, headers: HeaderStore, height: U64,
          hash: Hash): Outcome {
    match FillGap(headers, head.height, cfg.minValidChain, height, hash, [])
    case Missing => Unreconciled
    case Jump(entries) => Reconciled(entries, [])
    case Met(entries, meet) =>
      if meet == head.hash then Reconciled(entries, refs)
      else LookBack(headers, refs, cfg.maxReorg, 0, head.height, meet, entries)
  }

  /**
   * The update as coded. A direct extension is put in front of the refs at once and the code
   * then goes on to the general case, which puts it there a second time.
   */
  function Update(cfg: Config, refs: seq<BlockRef>, headers: HeaderStore, height: U64, hash: Hash,
          parentHash: Hash): (seq<BlockRef>, nat) {
    if refs == [] then ([BlockRef(height, hash)], 1)
    else
      var refs1 := if Extends(refs, height, parentHash) then [BlockRef(height, hash)] + refs else refs;
      if height <= refs[0].height then (refs1, 0)
      else
        match Reconcile(cfg, refs[0], refs1, headers, height, hash)
        case Unreconciled => (refs1, 0)
        case Reconciled(added, kept) => (added + kept, |added|)
  }

  /** The update its comments describe: a direct extension is put in front once, and that is all. */
  function UpdateIntended(cfg: Config, refs: seq<BlockRef>, headers: HeaderStore, height: U64, hash: Hash,
          parentHash: Hash): (seq<BlockRef>, nat) {
    if refs != [] && Extends(refs, height, parentHash) then ([BlockRef(height, hash)] + refs, 1)
    else Update(cfg, refs, headers, height, hash, parentHash)
  }

  // Branches: stored headers, parent-linked downwards from a given block

  /** The height k below another, in 64 bits. */
  function Down(height: U64, k: nat): int {
    if k <= height then height - k else height - k + TWO_64
  }

  ghost predicate Branch(headers: HeaderStore, added: seq<BlockRef>, height: U64, hash: Hash) {
    && (added != [] ==> added[0] == BlockRef(height, hash))
    && (forall k :: 0 <= k < |added| ==> added[k].height == Down(height, k) && FindHeader(headers, added[k].height, added[k].hash).Some?)
    && (forall k :: 0 <= k < |added| - 1 ==> IsParent(added[k].hash, added[k + 1].hash))
  }

  /** How many headers a hash leads to, its own and those of its ancestors. */
  function Lineage(hash: Hash): nat {
    match hash
    case Unknown(_) => 0
    case HashOf(header) => 1 + Lineage(header.parentHash)
  }

  /** Along parent-linked refs it falls by one, so none of their hashes repeats. */
  lemma {:induction false} LineageFalls(refs: seq<BlockRef>, i: nat, j: nat)
    requires i <= j < |refs| && forall k :: i <= k < j ==> IsParent(refs[k].hash, refs[k + 1].hash)
    ensures Lineage(refs[i].hash) == Lineage(refs[j].hash) + (j - i)
  {
    if i < j {
      LineageFalls(refs, i, j - 1);
      assert IsParent(refs[j - 1].hash, refs[j - 1 + 1].hash);
    }
  }

  /** The hash the branch stands on. */
  function Foot(added: seq<BlockRef>, hash: Hash): Hash {
    if added == [] then hash
    else if added[|added| - 1].hash.HashOf? then added[|added| - 1].hash.header.parentHash
    else added[|added| - 1].hash
  }

  lemma BranchGrows(headers: HeaderStore, added: seq<BlockRef>, height: U64, hash: Hash, next: U64)
    requires Branch(headers, added, height, hash)
    requires next == Down(height, |added|) && FindHeader(headers, next, Foot(added, hash)).Some?
    ensures Branch(headers, added + [BlockRef(next, Foot(added, hash))], height, hash)
  {
  }

  lemma {:induction false} FillGapBranch(headers: HeaderStore, base: U64, minValid: int, height: U64, hash: Hash,
          entries: seq<BlockRef>, top: U64, tip: Hash)
    requires Branch(headers, entries, top, tip)
    requires base <= height == top - |entries| && hash == Foot(entries, tip)
    requires minValid >= 1 && (entries == [] || |entries| < minValid)
    ensures match FillGap(headers, base, minValid, height, hash, entries)
            case Missing => true
            case Jump(all) => |all| == minValid && Branch(headers, all, top, tip) && top - |all| >= base
            case Met(all, meet) => Branch(headers, all, top, tip) && |all| == top - base && meet == Foot(all, tip)
                                   && (all == [] || |all| < minValid)
    decreases height - base
  {
    if height > base && FindHeader(headers, height, hash).Some? {
      BranchGrows(headers, entries, top, tip, height);
      var entries' := entries + [BlockRef(height, hash)];
      if |entries'| < minValid {
        FillGapBranch(headers, base, minValid, height - 1, hash.header.parentHash, entries', top, tip);
      }
    }
  }

  /** From index `gap` on, the new refs differ from the old ones they are compared with. */
  ghost predicate Differs(added: seq<BlockRef>, gap: int, refs: seq<BlockRef>) {
    forall k :: 0 <= gap <= k < |added| ==> k - gap < |refs| && added[k].hash != refs[k - gap].hash
  }

  lemma {:induction false} LookBackBranch(headers: HeaderStore, refs: seq<BlockRef>, maxReorg: int, i: nat,
          height: U64, hash: Hash, entries: seq<BlockRef>, top: U64, tip: Hash, gap: nat)
    requires i <= |refs|
    requires |entries| == gap + i && gap <= top && Differs(entries, gap, refs)
    requires entries != [] && Branch(headers, entries, top, tip)
    requires height == Down(top, |entries|) && hash == Foot(entries, tip)
    requires i < maxReorg < TWO_63
    ensures match LookBack(headers, refs, maxReorg, i, height, hash, entries)
            case Unreconciled => true
            case Reconciled(added, kept) =>
              && Branch(headers, added, top, tip)
              && |entries| <= |added| <= gap + maxReorg
              && IsSuffix(kept, refs)
              && (kept != [] ==> kept[0].hash == Foot(added, tip) && |refs| - |kept| + gap == |added|)
              && Differs(added, gap, refs)
    decreases |refs| - i
  {
    if i < |refs| && hash != refs[i].hash && FindHeader(headers, height, hash).Some? {
      BranchGrows(headers, entries, top, tip, height);
      var entries' := entries + [BlockRef(height, hash)];
      assert Differs(entries', gap, refs) && ToU64(height - 1) == Down(top, |entries'|);
      if i + 1 < maxReorg {
        LookBackBranch(headers, refs, maxReorg, i + 1, ToU64(height - 1), hash.header.parentHash, entries', top, tip, gap);
      }
    }
  }

  // Main results on one update

  ghost predicate Sane(cfg: Config) {
    cfg.minValidChain >= 1 && 1 <= cfg.maxReorg <= cfg.maxSize < TWO_63
  }

  /** What a merge yields: a bounded parent-linked branch in front of a suffix of the old refs. */
  lemma ReconcileShape(cfg: Config, refs: seq<BlockRef>, headers: HeaderStore, header: Header)
    requires Sane(cfg) && refs != [] && header.number > refs[0].height
    ensures match Reconcile(cfg, refs[0], refs, headers, header.number, HashOf(header))
            case Unreconciled => true
            case Reconciled(added, kept) =>
              && 0 < |added| <= cfg.minValidChain - 1 + cfg.maxReorg
              && Branch(headers, added, header.number, HashOf(header))
              && |added| <= header.number - refs[0].height + cfg.maxReorg
              && IsSuffix(kept, refs)
              && (kept != [] ==> kept[0].hash == Foot(added, HashOf(header)))
              && (kept != [] ==> |refs| - |kept| + header.number - refs[0].height == |added|)
              && Differs(added, header.number - refs[0].height, refs)
  {
    var head, hash := refs[0], HashOf(header);
    FillGapBranch(headers, head.height, cfg.minValidChain, header.number, hash, [], header.number, hash);
    match FillGap(headers, head.height, cfg.minValidChain, header.number, hash, [])
    case Missing =>
    case Jump(entries) =>
    case Met(entries, meet) =>
      if meet != head.hash {
        LookBackBranch(headers, refs, cfg.maxReorg, 0, head.height, meet, entries, header.number, hash, |entries|);
      }
  }

  /** A stored direct extension merges with exactly the refs it is given, whatever they are. */
  lemma ReconcileExtension(cfg: Config, refs: seq<BlockRef>, merged: seq<BlockRef>, headers: HeaderStore,
          header: Header)
    requires Sane(cfg) && refs != [] && Stored(headers, header)
    requires header.number == refs[0].height + 1 && header.parentHash == refs[0].hash
    ensures Reconcile(cfg, refs[0], merged, headers, header.number, HashOf(header))
            == Reconciled([RefOf(header)], if cfg.minValidChain == 1 then [] else merged)
  {
    assert [] + [RefOf(header)] == [RefOf(header)];
    assert FillGap(headers, refs[0].height, cfg.minValidChain, header.number, HashOf(header), [])
        == if cfg.minValidChain == 1 then Jump([RefOf(header)]) else Met([RefOf(header)], refs[0].hash);
  }

  /** A block 0 on top of a head at height 2^64 - 1. */
  predicate WrapsOnto(refs: seq<BlockRef>, height: U64, parentHash: Hash) {
    refs != [] && refs[0].height == TWO_64 - 1 && height == 0 && parentHash == refs[0].hash
  }

  lemma NoWrapNotOnto(headers: HeaderStore, refs: seq<BlockRef>, header: Header)
    requires refs != [] ==> GoodRef(headers, refs[0])
    requires NoWrap(header)
    ensures !WrapsOnto(refs, header.number, header.parentHash)
  {
  }

  /** The shape of a successful update as coded, and what an unsuccessful one leaves alone. */
  lemma UpdateShape(cfg: Config, refs: seq<BlockRef>, headers: HeaderStore, header: Header)
    requires Sane(cfg) && refs != [] && GoodRef(headers, refs[0]) && Stored(headers, header)
    ensures var (refs', n) := Update(cfg, refs, headers, header.number, HashOf(header), header.parentHash);
            if n == 0 then
              refs' == if WrapsOnto(refs, header.number, header.parentHash) then [RefOf(header)] + refs else refs
            else
              var added, kept := refs'[..n], refs'[n..];
              && n <= |refs'| && n <= cfg.minValidChain - 1 + cfg.maxReorg
              && header.number > refs[0].height && refs'[0] == RefOf(header)
              && Branch(headers, added, header.number, HashOf(header))
              && n <= header.number - refs[0].height + cfg.maxReorg
              && (if Extends(refs, header.number, header.parentHash) && cfg.minValidChain > 1 then n == 1 && kept == [RefOf(header)] + refs
                  else
                    && IsSuffix(kept, refs)
                    && (kept != [] ==>
                          && kept[0].hash == Foot(added, HashOf(header))
                          && |refs| - |kept| + header.number - refs[0].height == n))
  {
    var (refs', n) := Update(cfg, refs, headers, header.number, HashOf(header), header.parentHash);
    if Extends(refs, header.number, header.parentHash) {
      if header.number > 0 {
        ReconcileExtension(cfg, refs, [RefOf(header)] + refs, headers, header);
        assert refs'[..n] == [RefOf(header)];
      }
    } else if header.number > refs[0].height {
      ReconcileShape(cfg, refs, headers, header);
      match Reconcile(cfg, refs[0], refs, headers, header.number, HashOf(header))
      case Unreconciled =>
      case Reconciled(added, kept) =>
        assert refs'[..n] == added && refs'[n..] == kept;
    }
  }

  /** Refs stay refs to stored headers at their own numbers. */
  lemma UpdateKeepsGood(cfg: Config, refs: seq<BlockRef>, headers: HeaderStore, header: Header)
    requires Sane(cfg) && Filed(headers) && GoodRefs(headers, refs) && Stored(headers, header)
    ensures GoodRefs(headers, Update(cfg, refs, headers, header.number, HashOf(header), header.parentHash).0)
  {
    if refs != [] {
      UpdateShape(cfg, refs, headers, header);
      var (refs', n) := Update(cfg, refs, headers, header.number, HashOf(header), header.parentHash);
      forall i | 0 <= i < |refs'| ensures GoodRef(headers, refs'[i]) {
        if i < n {
          assert refs'[..n][i] == refs'[i];
        } else {
          assert refs'[i] == refs'[n..][i - n];
        }
      }
    }
  }

  /** Two well-linked pieces whose junction is well linked. */
  lemma LinkedJoin(above: seq<BlockRef>, below: seq<BlockRef>)
    requires Strict(above) && Linked(below)
    requires above != [] && below != [] ==> above[|above| - 1] == below[0] || Child(above[|above| - 1], below[0])
    ensures Linked(above + below)
  {
  }

  /** Where a branch meets the refs that are kept, its last header is numbered one above its parent. */
  predicate MeetsWell(outcome: Outcome) {
    outcome.Reconciled? && outcome.added != [] && outcome.kept != [] ==>
      var last := outcome.added[|outcome.added| - 1];
      last.hash.HashOf? && WellNumbered(last.hash.header)
  }

  /** A branch that goes down past height 0. */
  predicate GoesBelowZero(height: U64, outcome: Outcome) {
    outcome.Reconciled? && |outcome.added| > height + 1
  }

  /** The walk of an update that is no direct extension, if there is one, stays above 0 and meets the kept refs well. */
  predicate WalksWell(cfg: Config, refs: seq<BlockRef>, headers: HeaderStore, header: Header)
    requires refs != []
  {
    header.number > refs[0].height && !Extends(refs, header.number, header.parentHash) ==>
      var outcome := Reconcile(cfg, refs[0], refs, headers, header.number, HashOf(header));
      MeetsWell(outcome) && !GoesBelowZero(header.number, outcome)
  }

  /** No stored header is numbered 0 on a parent numbered 2^64 - 1. */
  ghost predicate StoresNoWrap(headers: HeaderStore) {
    forall n, x :: n in headers && x in headers[n] ==> NoWrap(x)
  }

  /** Nor is any with a parent among the refs ill-numbered. */
  ghost predicate ChildrenNumbered(refs: seq<BlockRef>, headers: HeaderStore) {
    StoresNoWrap(headers) && forall n, x :: n in headers && x in headers[n] && OnChain(x.parentHash, refs) ==> WellNumbered(x)
  }

  lemma BranchEndsAtZero(headers: HeaderStore, header: Header, added: seq<BlockRef>, k: nat)
    requires Filed(headers) && StoresNoWrap(headers) && Branch(headers, added, header.number, HashOf(header))
    requires k + 1 < |added|
    ensures added[k].height > 0
  {
    assert FindHeader(headers, added[k].height, added[k].hash).Some?;
    assert FindHeader(headers, added[k + 1].height, added[k + 1].hash).Some?;
    assert NoWrap(added[k].hash.header);
  }

  lemma BranchStaysAboveZero(headers: HeaderStore, header: Header, added: seq<BlockRef>)
    requires Filed(headers) && StoresNoWrap(headers) && Branch(headers, added, header.number, HashOf(header))
    ensures |added| <= header.number + 1
  {
    if |added| > header.number + 1 {
      BranchEndsAtZero(headers, header, added, header.number);
    }
  }

  /** Then an update does not wrap, and walks well. */
  lemma ChildrenNumberedWalkWell(cfg: Config, refs: seq<BlockRef>, headers: HeaderStore, header: Header)
    requires Sane(cfg) && Filed(headers) && refs != [] && GoodRef(headers, refs[0]) && Stored(headers, header)
    requires ChildrenNumbered(refs, headers)
    ensures !WrapsOnto(refs, header.number, header.parentHash) && WalksWell(cfg, refs, headers, header)
  {
    assert NoWrap(header);
    NoWrapNotOnto(headers, refs, header);
    if header.number > refs[0].height {
      ReconcileShape(cfg, refs, headers, header);
      match Reconcile(cfg, refs[0], refs, headers, header.number, HashOf(header))
      case Unreconciled =>
      case Reconciled(added, kept) =>
        BranchStaysAboveZero(headers, header, added);
        if kept != [] {
          var last := added[|added| - 1];
          assert FindHeader(headers, last.height, last.hash).Some?;
          assert refs[|refs| - |kept|].hash == last.hash.header.parentHash;
        }
    }
  }

  /** Linkage as coded, duplicates included: an update keeps it exactly when it does not wrap and its walk goes well. */
  lemma UpdateKeepsLinkedIff(cfg: Config, refs: seq<BlockRef>, headers: HeaderStore, header: Header)
    requires Sane(cfg) && Filed(headers) && GoodRefs(headers, refs) && Stored(headers, header)
    requires Linked(refs) && refs != []
    ensures Linked(Update(cfg, refs, headers, header.number, HashOf(header), header.parentHash).0)
            <==> !WrapsOnto(refs, header.number, header.parentHash) && WalksWell(cfg, refs, headers, header)
  {
    assert GoodRef(headers, refs[0]);
    if Extends(refs, header.number, header.parentHash) {
      ExtensionKeepsLinkedIff(cfg, refs, headers, header);
    } else if header.number > refs[0].height {
      ReconcileShape(cfg, refs, headers, header);
      match Reconcile(cfg, refs[0], refs, headers, header.number, HashOf(header))
      case Unreconciled =>
      case Reconciled(added, kept) => MeetingIff(refs, headers, header, added, kept);
    }
  }

  lemma ExtensionKeepsLinkedIff(cfg: Config, refs: seq<BlockRef>, headers: HeaderStore, header: Header)
    requires Sane(cfg) && Stored(headers, header) && Linked(refs) && refs != []
    requires Extends(refs, header.number, header.parentHash)
    ensures Linked(Update(cfg, refs, headers, header.number, HashOf(header), header.parentHash).0) <==> header.number > 0
  {
    var refs1 := [RefOf(header)] + refs;
    if header.number > 0 {
      ReconcileExtension(cfg, refs, refs1, headers, header);
      LinkedJoin([RefOf(header)], refs);
      LinkedJoin([RefOf(header)], refs1);
      assert [RefOf(header)] + [] == [RefOf(header)];
    } else {
      assert refs1[1] == refs[0] && refs1[0] != refs1[1] && !Child(refs1[0], refs1[1]);
    }
  }

  lemma MeetingIff(refs: seq<BlockRef>, headers: HeaderStore, header: Header, added: seq<BlockRef>, kept: seq<BlockRef>)
    requires Filed(headers) && GoodRefs(headers, refs) && Linked(refs) && IsSuffix(kept, refs)
    requires added != [] && Branch(headers, added, header.number, HashOf(header))
    requires kept != [] ==> kept[0].hash == Foot(added, HashOf(header))
    ensures var outcome := Reconciled(added, kept);
            Linked(added + kept) <==> MeetsWell(outcome) && !GoesBelowZero(header.number, outcome)
  {
    var all, n, last := added + kept, |added|, added[|added| - 1];
    assert FindHeader(headers, last.height, last.hash).Some?;
    if n > header.number + 1 {
      var k: nat := header.number;
      assert all[k] == added[k] && all[k + 1] == added[k + 1] && all[k] != all[k + 1] && !Child(all[k], all[k + 1]);
    } else if kept == [] {
      assert all == added;
    } else {
      assert GoodRef(headers, kept[0]) && all[n - 1] == last && all[n] == kept[0];
      if MeetsWell(Reconciled(added, kept)) {
        LinkedJoin(added, kept);
      }
    }
  }

  /**
   * It can fail: over the refs n, n, o a block m whose parent p has the same number 5 as its own
   * parent n leads to m, p, n, o.
   */
  lemma IllNumberedBreaksLink(cfg: Config, o: Header, n: Header, p: Header, m: Header, headers: HeaderStore)
    requires cfg.maxReorg >= 2 && cfg.minValidChain >= 2
    requires o.number == 4 && n.number == p.number == 5 && m.number == 6
    requires n.parentHash == HashOf(o) && p.parentHash == HashOf(n) && m.parentHash == HashOf(p)
    requires Stored(headers, p) && Stored(headers, m)
    ensures var refs' := [RefOf(m), RefOf(p), RefOf(n), RefOf(o)];
            && Update(cfg, [RefOf(n), RefOf(n), RefOf(o)], headers, 6, HashOf(m), HashOf(p)) == (refs', 2)
            && Linked([RefOf(n), RefOf(n), RefOf(o)]) && !Linked(refs')
  {
    var refs := [RefOf(n), RefOf(n), RefOf(o)];
    var added, kept := [RefOf(m), RefOf(p)], [RefOf(n), RefOf(o)];
    assert [] + [RefOf(m)] == [RefOf(m)] && [RefOf(m)] + [RefOf(p)] == added && refs[1..] == kept;
    assert Lineage(HashOf(p)) == Lineage(HashOf(n)) + 1;
    assert FillGap(headers, 5, cfg.minValidChain, 6, HashOf(m), []) == Met([RefOf(m)], HashOf(p));
    assert LookBack(headers, refs, cfg.maxReorg, 1, 4, HashOf(n), added) == Reconciled(added, kept);
    var refs' := added + kept;
    assert refs' == [RefOf(m), RefOf(p), RefOf(n), RefOf(o)];
    assert !Child(refs'[1], refs'[2]) && refs'[1] != refs'[2];
  }

  lemma LinkedIsShallow(refs: seq<BlockRef>)
    requires Linked(refs)
    ensures Shallow(refs)
  {
    forall i | 0 <= i < |refs| ensures Below(refs[0].height, refs[i].height) <= i {
      LinkedHeights(refs, 0, i);
    }
  }

  /** Differences of heights wrap with the head. */
  lemma ExtensionKeepsShallow(refs: seq<BlockRef>, header: Header)
    requires Shallow(refs) && refs != [] && Extends(refs, header.number, header.parentHash)
    ensures Shallow([RefOf(header)] + refs)
  {
  }

  /** Refs put in front of a suffix of shallow refs, as many as the new head stands higher. */
  lemma ShallowJoin(refs: seq<BlockRef>, headers: HeaderStore, added: seq<BlockRef>, kept: seq<BlockRef>, header: Header)
    requires Shallow(refs) && refs != [] && header.number >= refs[0].height && IsSuffix(kept, refs)
    requires added != [] && Branch(headers, added, header.number, HashOf(header))
    requires kept != [] ==> |refs| - |kept| + header.number - refs[0].height <= |added|
    ensures Shallow(added + kept)
  {
    var all, n := added + kept, |added|;
    forall i | 0 <= i < |all| ensures Below(all[0].height, all[i].height) <= i {
      if i >= n {
        assert all[i] == kept[i - n] == refs[|refs| - |kept| + i - n];
      } else {
        assert all[i] == added[i];
      }
    }
  }

  /** The update as coded keeps the refs shallow, however blocks are numbered. */
  lemma UpdateKeepsShallow(cfg: Config, refs: seq<BlockRef>, headers: HeaderStore, header: Header)
    requires Sane(cfg) && GoodRefs(headers, refs) && Stored(headers, header) && Shallow(refs)
    ensures Shallow(Update(cfg, refs, headers, header.number, HashOf(header), header.parentHash).0)
  {
    if refs != [] {
      assert GoodRef(headers, refs[0]);
      var (refs', n) := Update(cfg, refs, headers, header.number, HashOf(header), header.parentHash);
      UpdateShape(cfg, refs, headers, header);
      if n == 0 {
        if refs' != refs {
          ExtensionKeepsShallow(refs, header);
        }
      } else if Extends(refs, header.number, header.parentHash) && cfg.minValidChain > 1 {
        assert refs'[..1] == [RefOf(header)];
        assert refs' == [RefOf(header), RefOf(header)] + refs;
        assert forall i :: 2 <= i < |refs'| ==> refs'[i] == refs[i - 2];
      } else {
        assert refs' == refs'[..n] + refs'[n..];
        ShallowJoin(refs, headers, refs'[..n], refs'[n..], header);
      }
    }
  }

  lemma HashLinkedJoin(above: seq<BlockRef>, below: seq<BlockRef>)
    requires HashLinked(above) && HashLinked(below)
    requires above != [] && below != [] ==>
               above[|above| - 1] == below[0] || IsParent(above[|above| - 1].hash, below[0].hash)
    ensures HashLinked(above + below)
  {
  }

  lemma ExtensionKeepsHashLinked(refs: seq<BlockRef>, header: Header)
    requires HashLinked(refs) && refs != [] && header.parentHash == refs[0].hash
    ensures HashLinked([RefOf(header)] + refs)
  {
    HashLinkedJoin([RefOf(header)], refs);
  }

  /** The update as coded keeps adjacent refs identical or parent-linked, however blocks are numbered. */
  lemma UpdateKeepsHashLinked(cfg: Config, refs: seq<BlockRef>, headers: HeaderStore, header: Header)
    requires Sane(cfg) && GoodRefs(headers, refs) && Stored(headers, header) && HashLinked(refs)
    ensures HashLinked(Update(cfg, refs, headers, header.number, HashOf(header), header.parentHash).0)
  {
    if refs != [] {
      assert GoodRef(headers, refs[0]);
      var (refs', n) := Update(cfg, refs, headers, header.number, HashOf(header), header.parentHash);
      UpdateShape(cfg, refs, headers, header);
      if refs' == refs {
      } else if n == 0 {
        ExtensionKeepsHashLinked(refs, header);
      } else {
        var added, kept := refs'[..n], refs'[n..];
        assert refs' == added + kept && FindHeader(headers, added[n - 1].height, added[n - 1].hash).Some?;
        if Extends(refs, header.number, header.parentHash) && cfg.minValidChain > 1 {
          ExtensionKeepsHashLinked(refs, header);
        }
        HashLinkedJoin(added, kept);
      }
    }
  }

  /** The walk of an update that is no direct extension, if there is one, goes to no height above the new head. */
  predicate StaysUnderHead(cfg: Config, refs: seq<BlockRef>, headers: HeaderStore, header: Header)
    requires refs != []
  {
    header.number > refs[0].height && !Extends(refs, header.number, header.parentHash) ==>
      !GoesBelowZero(header.number, Reconcile(cfg, refs[0], refs, headers, header.number, HashOf(header)))
      || header.number == TWO_64 - 1
  }

  lemma HighestJoinIff(headers: HeaderStore, added: seq<BlockRef>, kept: seq<BlockRef>, header: Header)
    requires added != [] && Branch(headers, added, header.number, HashOf(header))
    requires forall i :: 0 <= i < |kept| ==> kept[i].height <= header.number
    ensures HeadIsHighest(added + kept) <==> |added| <= header.number + 1 || header.number == TWO_64 - 1
  {
    var all, k: nat := added + kept, header.number + 1;
    assert forall i :: 0 <= i < |added| ==> all[i] == added[i];
    assert forall i :: |added| <= i < |all| ==> all[i] == kept[i - |added|];
    if |added| > k {
      assert all[k].height == TWO_64 - 1;
    }
  }

  /** The update as coded leaves no ref above the head exactly when it neither wraps the head nor walks above it. */
  lemma UpdateKeepsHighestIff(cfg: Config, refs: seq<BlockRef>, headers: HeaderStore, header: Header)
    requires Sane(cfg) && GoodRefs(headers, refs) && Stored(headers, header) && HeadIsHighest(refs) && refs != []
    ensures HeadIsHighest(Update(cfg, refs, headers, header.number, HashOf(header), header.parentHash).0)
            <==> !WrapsOnto(refs, header.number, header.parentHash) && StaysUnderHead(cfg, refs, headers, header)
  {
    assert GoodRef(headers, refs[0]);
    var refs1 := [RefOf(header)] + refs;
    if Extends(refs, header.number, header.parentHash) {
      assert refs1[1] == refs[0];
      if header.number > 0 {
        ReconcileExtension(cfg, refs, refs1, headers, header);
      }
    } else if header.number > refs[0].height {
      ReconcileShape(cfg, refs, headers, header);
      match Reconcile(cfg, refs[0], refs, headers, header.number, HashOf(header))
      case Unreconciled =>
      case Reconciled(added, kept) => HighestJoinIff(headers, added, kept, header);
    }
  }

  lemma NoWrapStaysUnderHead(cfg: Config, refs: seq<BlockRef>, headers: HeaderStore, header: Header)
    requires Sane(cfg) && Filed(headers) && StoresNoWrap(headers) && refs != []
    ensures StaysUnderHead(cfg, refs, headers, header)
  {
    if header.number > refs[0].height {
      ReconcileShape(cfg, refs, headers, header);
      match Reconcile(cfg, refs[0], refs, headers, header.number, HashOf(header))
      case Unreconciled =>
      case Reconciled(added, kept) => BranchStaysAboveZero(headers, header, added);
    }
  }

  lemma StrictHeights(refs: seq<BlockRef>, i: nat)
    requires Strict(refs) && i < |refs|
    ensures refs[i].height == refs[0].height - i
  {
    if i > 0 {
      StrictHeights(refs, i - 1);
      assert Child(refs[i - 1], refs[i]);
    }
  }

  /** No ref is deeper below the head, in heights, than in positions; none is above the head. */
  lemma {:induction false} LinkedHeights(refs: seq<BlockRef>, i: nat, j: nat)
    requires Linked(refs) && i <= j < |refs|
    ensures refs[i].height >= refs[j].height >= refs[i].height - (j - i)
    ensures refs[i].height == refs[j].height ==> refs[i] == refs[j]
  {
    if i < j {
      LinkedHeights(refs, i, j - 1);
      assert refs[j - 1] == refs[j] || Child(refs[j - 1], refs[j]);
    }
  }

  ghost predicate OnChain(hash: Hash, refs: seq<BlockRef>) {
    exists i :: 0 <= i < |refs| && refs[i].hash == hash
  }

  /** Nothing on a strict chain descends from its head. */
  lemma ExtensionIsNew(refs: seq<BlockRef>, header: Header)
    requires Strict(refs) && refs != [] && header.parentHash == refs[0].hash
    ensures !OnChain(HashOf(header), refs)
  {
    forall i | 0 <= i < |refs| ensures refs[i].hash != HashOf(header) {
      assert forall k :: 0 <= k < i ==> Child(refs[k], refs[k + 1]);
      LineageFalls(refs, 0, i);
    }
  }

  lemma ExtensionIsStrictIff(refs: seq<BlockRef>, header: Header)
    requires Strict(refs) && refs != [] && Extends(refs, header.number, header.parentHash)
    ensures Strict([RefOf(header)] + refs) <==> header.number > 0
  {
    var refs1 := [RefOf(header)] + refs;
    assert refs1[1] == refs[0];
    if header.number > 0 {
      forall i | 0 <= i < |refs1| - 1 ensures Child(refs1[i], refs1[i + 1]) {
        assert i > 0 ==> Child(refs[i - 1], refs[i]);
      }
    } else {
      assert !Child(refs1[0], refs1[1]);
    }
  }

  /**
   * On a strict chain the intended update, when it switches branches, does so at the highest common
   * ancestor: nothing it adds was canonical, everything it keeps was. It stays strict unless it wraps.
   */
  lemma IntendedUpdate(cfg: Config, refs: seq<BlockRef>, headers: HeaderStore, header: Header)
    requires Sane(cfg) && Filed(headers) && GoodRefs(headers, refs) && Stored(headers, header)
    requires Strict(refs) && refs != []
    ensures var (refs', n) := UpdateIntended(cfg, refs, headers, header.number, HashOf(header), header.parentHash);
            && (Strict(refs') <==> !WrapsOnto(refs, header.number, header.parentHash))
            && n <= |refs'| && (n == 0 ==> refs' == refs)
            && (n > 0 ==> refs'[0] == RefOf(header) && IsSuffix(refs'[n..], refs))
            && (forall k :: 0 <= k < n ==> !OnChain(refs'[k].hash, refs))
  {
    assert GoodRef(headers, refs[0]);
    var (refs', n) := UpdateIntended(cfg, refs, headers, header.number, HashOf(header), header.parentHash);
    if Extends(refs, header.number, header.parentHash) {
      assert refs'[1..] == refs;
      ExtensionIsNew(refs, header);
      ExtensionIsStrictIff(refs, header);
    } else if header.number > refs[0].height {
      ReconcileShape(cfg, refs, headers, header);
      match Reconcile(cfg, refs[0], refs, headers, header.number, HashOf(header))
      case Unreconciled =>
      case Reconciled(added, kept) =>
        assert refs'[n..] == kept;
        StrictStaysAboveZero(refs, headers, added, header);
        StrictJoin(refs, headers, added, kept, header);
        forall k | 0 <= k < n ensures !OnChain(refs'[k].hash, refs) {
          NewBranchIsNew(refs, headers, added, header, k);
        }
    }
  }

  /** A branch merged with a strict chain ends where the chain does. */
  lemma StrictStaysAboveZero(refs: seq<BlockRef>, headers: HeaderStore, added: seq<BlockRef>, header: Header)
    requires Strict(refs) && refs != [] && header.number > refs[0].height
    requires Differs(added, header.number - refs[0].height, refs)
    ensures |added| <= header.number + 1
  {
    StrictHeights(refs, |refs| - 1);
    var k, gap := |added| - 1, header.number - refs[0].height;
    if k >= gap {
      assert added[k].hash != refs[k - gap].hash;
    }
  }

  lemma StrictJoin(refs: seq<BlockRef>, headers: HeaderStore, added: seq<BlockRef>, kept: seq<BlockRef>, header: Header)
    requires GoodRefs(headers, refs) && Filed(headers) && Strict(refs) && refs != []
    requires added != [] && Branch(headers, added, header.number, HashOf(header)) && IsSuffix(kept, refs)
    requires |added| <= header.number + 1
    requires kept != [] ==> kept[0].hash == Foot(added, HashOf(header))
    requires kept != [] ==> |refs| - |kept| + header.number - refs[0].height == |added|
    ensures Strict(added + kept)
  {
    var all := added + kept;
    forall i | 0 <= i < |all| - 1 ensures Child(all[i], all[i + 1]) {
      if i >= |added| {
        assert all[i] == refs[|refs| - |kept| + i - |added|];
      } else if i == |added| - 1 {
        assert FindHeader(headers, added[i].height, added[i].hash).Some?;
        StrictHeights(refs, |refs| - |kept|);
      }
    }
  }

  lemma NewBranchIsNew(refs: seq<BlockRef>, headers: HeaderStore, added: seq<BlockRef>, header: Header, k: nat)
    requires GoodRefs(headers, refs) && Filed(headers) && Strict(refs) && refs != [] && k < |added| <= header.number + 1
    requires header.number > refs[0].height
    requires Branch(headers, added, header.number, HashOf(header)) && Differs(added, header.number - refs[0].height, refs)
    ensures !OnChain(added[k].hash, refs)
  {
    assert FindHeader(headers, added[k].height, added[k].hash).Some?;
    forall i | 0 <= i < |refs| ensures refs[i].hash != added[k].hash {
      StrictHeights(refs, i);
      assert GoodRef(headers, refs[i]);
    }
  }

  lemma {:induction false} FillGapStarts(headers: HeaderStore, base: U64, minValid: int, height: U64, hash: Hash,
          entries: seq<BlockRef>)
    ensures match FillGap(headers, base, minValid, height, hash, entries)
            case Missing => true
            case Jump(all) => entries <= all && (height > base ==> |all| > |entries| && all[|entries|] == BlockRef(height, hash))
            case Met(all, _) => entries <= all && (height > base ==> |all| > |entries| && all[|entries|] == BlockRef(height, hash))
    decreases height - base
  {
    if height > base && FindHeader(headers, height, hash).Some? {
      var entries' := entries + [BlockRef(height, hash)];
      if |entries'| < minValid {
        FillGapStarts(headers, base, minValid, height - 1, hash.header.parentHash, entries');
      }
    }
  }

  lemma {:induction false} LookBackStarts(headers: HeaderStore, refs: seq<BlockRef>, maxReorg: int, i: nat,
          height: U64, hash: Hash, entries: seq<BlockRef>)
    requires i <= |refs|
    ensures var r := LookBack(headers, refs, maxReorg, i, height, hash, entries); r.Reconciled? ==> entries <= r.added
    decreases |refs| - i
  {
    if i < |refs| && hash != refs[i].hash && FindHeader(headers, height, hash).Some? && i + 1 < maxReorg {
      LookBackStarts(headers, refs, maxReorg, i + 1, ToU64(height - 1), hash.header.parentHash, entries + [BlockRef(height, hash)]);
    }
  }

  /** For any input at all, the head height drops in one case only: a block 0 naming a head at height 2^64 - 1. */
  lemma HeadDropsOnlyByWrap(cfg: Config, refs: seq<BlockRef>, headers: HeaderStore, height: U64, hash: Hash,
          parentHash: Hash)
    requires refs != []
    ensures var (refs', n) := Update(cfg, refs, headers, height, hash, parentHash);
            && refs' != []
            && (refs'[0].height < refs[0].height <==> WrapsOnto(refs, height, parentHash))
            && (n > 0 ==> refs'[0] == BlockRef(height, hash) && height > refs[0].height)
  {
    var refs1 := if Extends(refs, height, parentHash) then [BlockRef(height, hash)] + refs else refs;
    FillGapStarts(headers, refs[0].height, cfg.minValidChain, height, hash, []);
    match FillGap(headers, refs[0].height, cfg.minValidChain, height, hash, [])
    case Missing =>
    case Jump(_) =>
    case Met(entries, meet) =>
      if meet != refs[0].hash {
        LookBackStarts(headers, refs1, cfg.maxReorg, 0, refs[0].height, meet, entries);
      }
  }

  /** An update raises the head exactly when it reports new heads, and changes the refs only then or when it wraps. */
  lemma UpdateChangesIffCounted(cfg: Config, refs: seq<BlockRef>, headers: HeaderStore, header: Header)
    requires Sane(cfg) && GoodRefs(headers, refs) && refs != [] && Stored(headers, header)
    ensures var (refs', n) := Update(cfg, refs, headers, header.number, HashOf(header), header.parentHash);
            && (refs' != refs <==> n > 0 || WrapsOnto(refs, header.number, header.parentHash))
            && refs' != [] && (refs'[0].height > refs[0].height <==> n > 0)
  {
    assert GoodRef(headers, refs[0]);
    UpdateShape(cfg, refs, headers, header);
  }

  /** A stored direct extension, as coded and as intended: the code enters it twice. */
  lemma DirectExtension(cfg: Config, refs: seq<BlockRef>, headers: HeaderStore, header: Header)
    requires Sane(cfg) && cfg.minValidChain > 1 && refs != [] && Stored(headers, header)
    requires header.number == refs[0].height + 1 && header.parentHash == refs[0].hash
    ensures Update(cfg, refs, headers, header.number, HashOf(header), header.parentHash) == ([RefOf(header), RefOf(header)] + refs, 1)
    ensures UpdateIntended(cfg, refs, headers, header.number, HashOf(header), header.parentHash) == ([RefOf(header)] + refs, 1)
  {
    ReconcileExtension(cfg, refs, [RefOf(header)] + refs, headers, header);
    assert [RefOf(header)] + ([RefOf(header)] + refs) == [RefOf(header), RefOf(header)] + refs;
  }

  /** On a strict chain the update as coded keeps strictness exactly when it neither enters a direct extension twice nor wraps. */
  lemma UpdateKeepsStrictIff(cfg: Config, refs: seq<BlockRef>, headers: HeaderStore, header: Header)
    requires Sane(cfg) && Filed(headers) && GoodRefs(headers, refs) && Stored(headers, header)
    requires Strict(refs) && refs != []
    ensures Strict(Update(cfg, refs, headers, header.number, HashOf(header), header.parentHash).0)
            <==> !(Extends(refs, header.number, header.parentHash) && (cfg.minValidChain > 1 || header.number == 0))
  {
    if !Extends(refs, header.number, header.parentHash) {
      IntendedUpdate(cfg, refs, headers, header);
    } else {
      var refs' := Update(cfg, refs, headers, header.number, HashOf(header), header.parentHash).0;
      ExtensionIsStrictIff(refs, header);
      if header.number == 0 {
        assert refs' == [RefOf(header)] + refs;
      } else if cfg.minValidChain > 1 {
        DirectExtension(cfg, refs, headers, header);
        assert !Child(refs'[0], refs'[1]);
      } else {
        ReconcileExtension(cfg, refs, [RefOf(header)] + refs, headers, header);
      }
    }
  }

  /**
   * What the duplicate costs: while the head is entered twice, an update keeps the old refs whole or
   * drops them whole, unless it meets them at an ill-numbered header. No common ancestor below the
   * head is found otherwise.
   */
  lemma DuplicateHeadForgetsIff(cfg: Config, refs: seq<BlockRef>, headers: HeaderStore, header: Header)
    requires Sane(cfg) && Filed(headers) && GoodRefs(headers, refs) && Linked(refs)
    requires |refs| >= 2 && refs[0] == refs[1] && header.number > refs[0].height
    ensures var outcome := Reconcile(cfg, refs[0], refs, headers, header.number, HashOf(header));
            outcome.Reconciled? ==> (outcome.kept == [] || outcome.kept == refs <==> MeetsWell(outcome))
  {
    ReconcileShape(cfg, refs, headers, header);
    match Reconcile(cfg, refs[0], refs, headers, header.number, HashOf(header))
    case Unreconciled =>
    case Reconciled(added, kept) =>
      if kept != [] {
        var i, last := |refs| - |kept|, added[|added| - 1];
        assert FindHeader(headers, last.height, last.hash).Some? && GoodRef(headers, refs[i]);
        if i > 0 {
          LinkedHeights(refs, 1, i);
        }
      }
  }
}
