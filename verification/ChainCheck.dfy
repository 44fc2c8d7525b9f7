/**
 The chain verification of src/tls12_chainverify.c. libcrypto is asked about the first
 certificate; when it fails on a signature, which it does on every ECDSA-SHA2 link, the
 chain is checked by hand: every presented certificate but one must be signed by another
 one, and that one must be anchored. Signature checking, the clock and libcrypto's
 answers are parameters; libcrypto's store holds the anchors and the presented
 certificates after the first.
 */
module ChainCheck {
  import opened Bytes

  /** A certificate is its encoding. */
  type Cert = seq<Byte>

  datatype Answer = Valid | SignatureFailure | OtherFailure

  datatype World = World(
    verifies: (Cert, Cert) -> bool,          // the second one's key verifies the first one's ECDSA-SHA2 signature
    timeOk: Cert -> bool,
    storeAnswer: (Cert, multiset<Cert>) -> Answer,
    anchors: seq<Cert>)

  // ----- what is accepted -----

  /** Some other one of the certificates has signed `c`. */
  ghost predicate Verified(w: World, m: multiset<Cert>, c: Cert) {
    exists d :: d in m - multiset{c} && w.verifies(c, d)
  }

  /** `top` occurs once and is the only certificate that no other one has signed. */
  ghost predicate IsTop(w: World, m: multiset<Cert>, top: Cert) {
    m[top] == 1 && !Verified(w, m, top) && forall c :: c in m && c != top ==> Verified(w, m, c)
  }

  /** The key of some anchor verifies the signature of `c`. */
  ghost predicate AnchorSigned(w: World, c: Cert) {
    exists a :: a in w.anchors && w.verifies(c, a)
  }

  /** `store` are the certificates presented after the first. */
  ghost predicate Anchored(w: World, top: Cert, store: multiset<Cert>) {
    || w.storeAnswer(top, store) == Valid
    || (w.storeAnswer(top, store) == SignatureFailure && AnchorSigned(w, top))
  }

  ghost predicate Accepts(w: World, m: multiset<Cert>, store: multiset<Cert>) {
    && |m| >= 2
    && (forall c :: c in m ==> w.timeOk(c))
    && exists top :: top in m && IsTop(w, m, top) && Anchored(w, top, store)
  }

  /** At most 62 certificates after the first are looked at. */
  function Presented(chain: seq<Cert>): (r: seq<Cert>)
    ensures r <= chain && |r| == if |chain| < 63 then |chain| else 63
  {
    if |chain| <= 63 then chain else chain[..63]
  }

  /** The presented certificates that go into libcrypto's store. */
  function Store(chain: seq<Cert>): multiset<Cert>
    requires chain != []
  {
    multiset(Presented(chain)[1..])
  }

  /** The check by hand is entered: libcrypto fails on a signature when asked about the first certificate. */
  predicate Entered(w: World, chain: seq<Cert>) {
    chain != [] && w.storeAnswer(chain[0], Store(chain)) == SignatureFailure
  }

  /** The check by hand is entered and accepts. */
  ghost predicate AcceptsChain(w: World, chain: seq<Cert>) {
    Entered(w, chain) && Accepts(w, multiset(Presented(chain)), Store(chain))
  }

  /** The verdict: libcrypto's own, or that of the check by hand. */
  ghost predicate ValidChain(w: World, chain: seq<Cert>) {
    chain != [] && (w.storeAnswer(chain[0], Store(chain)) == Valid || AcceptsChain(w, chain))
  }

  // ----- the order of the certificates -----

  lemma TopUnique(w: World, m: multiset<Cert>, a: Cert, b: Cert)
    requires IsTop(w, m, a) && IsTop(w, m, b)
    ensures a == b
  {
    assert b in m;
  }

  /** Reordering the presented certificates after the first never changes a verdict. */
  lemma RestReordered(w: World, chain: seq<Cert>, chain': seq<Cert>)
    requires chain != [] && chain' != [] && chain[0] == chain'[0]
    requires multiset(Presented(chain)) == multiset(Presented(chain'))
    ensures Entered(w, chain) == Entered(w, chain')
    ensures AcceptsChain(w, chain) == AcceptsChain(w, chain') && ValidChain(w, chain) == ValidChain(w, chain')
  {
    Tail(Presented(chain));
    Tail(Presented(chain'));
    hide Accepts;
  }

  /** The store is what was presented without the first. */
  lemma Tail(all: seq<Cert>)
    ensures all != [] ==> multiset(all[1..]) == multiset(all) - multiset{all[0]}
    ensures |multiset(all)| == |all|
  {
    if all != [] {
      assert all == [all[0]] + all[1..];
    }
  }

  /** `top` is a top among certificates that are all in time, and it is not alone. */
  ghost predicate Eligible(w: World, m: multiset<Cert>, top: Cert) {
    |m| >= 2 && IsTop(w, m, top) && forall c :: c in m ==> w.timeOk(c)
  }

  /** Fails on the signature of every certificate but `top`; about `top` it answers `x` with this store and `y` with others. */
  function About(top: Cert, store: multiset<Cert>, x: Answer, y: Answer): (Cert, multiset<Cert>) -> Answer {
    (c, s) => if c != top then SignatureFailure else if s == store then x else y
  }

  /**
   Two orders of the same certificates, with both of which the check is entered, get the
   same verdict from every libcrypto exactly when the same certificate comes first: that
   one alone stays out of the store.
   */
  lemma Reordered(w: World, chain: seq<Cert>, chain': seq<Cert>, top: Cert)
    requires chain != [] && multiset(Presented(chain)) == multiset(Presented(chain'))
    requires Eligible(w, multiset(Presented(chain)), top)
    ensures chain' != []
    ensures chain[0] == chain'[0] <==>
            forall ans: (Cert, multiset<Cert>) -> Answer ::
              var w' := w.(storeAnswer := ans);
              Entered(w', chain) && Entered(w', chain') ==> AcceptsChain(w', chain) == AcceptsChain(w', chain')
  {
    assert |Presented(chain')| == |multiset(Presented(chain'))| == |multiset(Presented(chain))|;
    if chain[0] == chain'[0] {
      forall ans: (Cert, multiset<Cert>) -> Answer
        ensures AcceptsChain(w.(storeAnswer := ans), chain) == AcceptsChain(w.(storeAnswer := ans), chain')
      {
        RestReordered(w.(storeAnswer := ans), chain, chain');
      }
    } else {
      var ans := OrderMatters(w, chain, chain', top);
      var w' := w.(storeAnswer := ans);
      assert Entered(w', chain) && Entered(w', chain') && AcceptsChain(w', chain) != AcceptsChain(w', chain');
    }
  }

  /**
   With different certificates first, there is a libcrypto with which the check is entered
   in both orders and accepts one of them. A top that comes first has failed on its
   signature, so only an anchor's key can save it; one that comes later can do without.
   */
  lemma OrderMatters(w: World, chain: seq<Cert>, chain': seq<Cert>, top: Cert) returns (ans: (Cert, multiset<Cert>) -> Answer)
    requires chain != [] && chain' != [] && multiset(Presented(chain)) == multiset(Presented(chain'))
    requires Eligible(w, multiset(Presented(chain)), top) && chain[0] != chain'[0]
    ensures var w' := w.(storeAnswer := ans);
            Entered(w', chain) && Entered(w', chain') && AcceptsChain(w', chain) != AcceptsChain(w', chain')
  {
    var later := if AnchorSigned(w, top) then OtherFailure else Valid;
    var x := if chain[0] == top then SignatureFailure else if chain'[0] == top then later else Valid;
    var y := if chain'[0] == top then SignatureFailure else if chain[0] == top then later else OtherFailure;
    ans := About(top, Store(chain), x, y);
    var m, w' := multiset(Presented(chain)), w.(storeAnswer := ans);
    StoresDiffer(Presented(chain), Presented(chain'));
    SameLinks(w, w', m, top);
    OnlyTop(w', m, top, Store(chain));
    OnlyTop(w', m, top, Store(chain'));
    assert AnchorSigned(w', top) == AnchorSigned(w, top);
    hide Accepts, Eligible, AnchorSigned;
  }

  lemma StoresDiffer(all: seq<Cert>, all': seq<Cert>)
    requires all != [] && all' != [] && multiset(all) == multiset(all') && all[0] != all'[0]
    ensures multiset(all[1..]) != multiset(all'[1..])
  {
    assert all == [all[0]] + all[1..] && all' == [all'[0]] + all'[1..];
    assert multiset(all)[all[0]] == multiset(all[1..])[all[0]] + 1;
    assert multiset(all')[all[0]] == multiset(all'[1..])[all[0]];
  }

  /** Links and times do not depend on the store. */
  lemma SameLinks(w: World, w': World, m: multiset<Cert>, top: Cert)
    requires w'.verifies == w.verifies && w'.timeOk == w.timeOk && Eligible(w, m, top)
    ensures Eligible(w', m, top)
  {
    assert forall c :: c in m ==> Verified(w', m, c) == Verified(w, m, c);
  }

  lemma OnlyTop(w: World, m: multiset<Cert>, top: Cert, store: multiset<Cert>)
    requires Eligible(w, m, top)
    ensures Accepts(w, m, store) <==> Anchored(w, top, store)
  {
    if Accepts(w, m, store) {
      var t :| t in m && IsTop(w, m, t) && Anchored(w, t, store);
      TopUnique(w, m, t, top);
    }
    assert top in m;
  }

  /** A certificate that only its own key verifies is not verified, unless it comes twice. */
  lemma OwnSignature(w: World, m: multiset<Cert>, c: Cert)
    requires forall d :: d in m && d != c ==> !w.verifies(c, d)
    ensures Verified(w, m, c) <==> m[c] >= 2 && w.verifies(c, c)
  {
    if m[c] >= 2 && w.verifies(c, c) {
      assert c in m - multiset{c};
    }
  }

  /** A lone certificate is not accepted by hand, nor are any of which one is out of its time. */
  lemma NeverByHand(w: World, chain: seq<Cert>)
    requires |chain| < 2 || exists c :: c in Presented(chain) && !w.timeOk(c)
    ensures !AcceptsChain(w, chain)
  {
    assert forall c :: c in Presented(chain) <==> c in multiset(Presented(chain));
  }

  /** Without a top, or with a certificate out of its time, no order is accepted. */
  lemma NoTopRejected(w: World, chain: seq<Cert>, chain': seq<Cert>)
    requires multiset(Presented(chain)) == multiset(Presented(chain'))
    requires forall top :: top in Presented(chain) ==> !Eligible(w, multiset(Presented(chain)), top)
    ensures !AcceptsChain(w, chain) && !AcceptsChain(w, chain')
  {
    assert forall c :: c in Presented(chain) <==> c in multiset(Presented(chain));
  }

  // ----- who vouches for the top -----

  /** An accepted top is signed by an anchor, or it came later and libcrypto calls it valid. */
  lemma AnchoredBy(w: World, chain: seq<Cert>, top: Cert)
    requires Entered(w, chain) && Anchored(w, top, Store(chain))
    ensures AnchorSigned(w, top) || (top != chain[0] && w.storeAnswer(top, Store(chain)) == Valid)
  {
  }

  /**
   Acceptance by hand means that an anchor's key verified the top, whatever libcrypto
   answers, exactly when one does or the top is the first certificate presented.
   */
  lemma VouchedExactly(w: World, chain: seq<Cert>, top: Cert)
    requires chain != [] && Eligible(w, multiset(Presented(chain)), top)
    ensures top == chain[0] || AnchorSigned(w, top) <==>
            forall ans: (Cert, multiset<Cert>) -> Answer ::
              AcceptsChain(w.(storeAnswer := ans), chain) ==> AnchorSigned(w.(storeAnswer := ans), top)
  {
    var m := multiset(Presented(chain));
    forall ans: (Cert, multiset<Cert>) -> Answer | AcceptsChain(w.(storeAnswer := ans), chain)
      ensures top == chain[0] ==> AnchorSigned(w.(storeAnswer := ans), top)
    {
      var w' := w.(storeAnswer := ans);
      SameLinks(w, w', m, top);
      OnlyTop(w', m, top, Store(chain));
      AnchoredBy(w', chain, top);
    }
    if top != chain[0] && !AnchorSigned(w, top) {
      AnchorNotNeeded(w, chain, top);
    }
  }

  /** A top that comes later is accepted on libcrypto's word, with the top itself in the store and no anchor's signature on it. */
  lemma AnchorNotNeeded(w: World, chain: seq<Cert>, top: Cert)
    requires chain != [] && Eligible(w, multiset(Presented(chain)), top)
    requires top != chain[0] && !AnchorSigned(w, top)
    ensures var w' := w.(storeAnswer := About(top, Store(chain), Valid, OtherFailure));
            top in Store(chain) && AcceptsChain(w', chain) && !AnchorSigned(w', top)
  {
    var m := multiset(Presented(chain));
    var w' := w.(storeAnswer := About(top, Store(chain), Valid, OtherFailure));
    Tail(Presented(chain));
    SameLinks(w, w', m, top);
    OnlyTop(w', m, top, Store(chain));
  }

  // ----- following the issuers -----

  /** Each certificate on `p` is signed by the next one, another one of the set. */
  ghost predicate IssuerPath(w: World, m: multiset<Cert>, p: seq<Cert>, c: Cert, d: Cert) {
    && p != [] && p[0] == c && p[|p| - 1] == d
    && forall i :: 0 <= i < |p| - 1 ==> p[i + 1] in m - multiset{p[i]} && w.verifies(p[i], p[i + 1])
  }

  ghost predicate Leads(w: World, m: multiset<Cert>, c: Cert, d: Cert) {
    exists p :: IssuerPath(w, m, p, c, d)
  }

  /** The signing relation within `m` has no cycle: `rank` falls from a certificate to its issuers. */
  ghost predicate Ranked(w: World, m: multiset<Cert>, rank: Cert -> nat) {
    forall c, d :: c in m && d in m - multiset{c} && w.verifies(c, d) ==> rank(d) < rank(c)
  }

  lemma LeadsStep(w: World, m: multiset<Cert>, c: Cert, d: Cert, e: Cert)
    requires d in m - multiset{c} && w.verifies(c, d) && Leads(w, m, d, e)
    ensures Leads(w, m, c, e)
  {
    var p :| IssuerPath(w, m, p, d, e);
    var q := [c] + p;
    forall i | 0 <= i < |q| - 1
      ensures q[i + 1] in m - multiset{q[i]} && w.verifies(q[i], q[i + 1])
    {
      assert i > 0 ==> q[i] == p[i - 1] && q[i + 1] == p[i];
    }
    assert IssuerPath(w, m, q, c, e);
  }

  lemma {:induction false} AllLeadToTop(w: World, m: multiset<Cert>, rank: Cert -> nat, top: Cert, c: Cert)
    requires Ranked(w, m, rank) && IsTop(w, m, top) && c in m
    ensures Leads(w, m, c, top)
    decreases rank(c)
  {
    if c == top {
      assert IssuerPath(w, m, [c], c, top);
    } else {
      var d :| d in m - multiset{c} && w.verifies(c, d);
      AllLeadToTop(w, m, rank, top, d);
      LeadsStep(w, m, c, d, top);
    }
  }

  /** Every walk along issuers is short, and one that cannot go on has arrived at the top. */
  lemma {:induction false} WalkEndsAtTop(w: World, m: multiset<Cert>, rank: Cert -> nat, top: Cert, p: seq<Cert>, c: Cert, d: Cert)
    requires Ranked(w, m, rank) && IsTop(w, m, top) && c in m && IssuerPath(w, m, p, c, d)
    ensures d in m && |p| + rank(d) <= rank(c) + 1
    ensures !Verified(w, m, d) <==> d == top
    decreases |p|
  {
    if |p| > 1 {
      assert p[1] in m - multiset{p[0]} && w.verifies(p[0], p[1]);
      var q := p[1..];
      forall i | 0 <= i < |q| - 1
        ensures q[i + 1] in m - multiset{q[i]} && w.verifies(q[i], q[i + 1])
      {
        assert q[i] == p[i + 1] && q[i + 1] == p[i + 1 + 1];
      }
      WalkEndsAtTop(w, m, rank, top, q, p[1], d);
    }
  }

  /** One anchored certificate to which all lead and where every walk along issuers ends. */
  ghost predicate IsRoot(w: World, m: multiset<Cert>, store: multiset<Cert>, top: Cert) {
    && top in m && Anchored(w, top, store)
    && (forall c :: c in m ==> Leads(w, m, c, top))
    && forall c, p, d :: c in m && IssuerPath(w, m, p, c, d) && !Verified(w, m, d) ==> d == top
  }

  lemma TopIsRoot(w: World, m: multiset<Cert>, store: multiset<Cert>, rank: Cert -> nat, top: Cert)
    requires Ranked(w, m, rank) && top in m && IsTop(w, m, top) && Anchored(w, top, store)
    ensures IsRoot(w, m, store, top)
  {
    forall c | c in m
      ensures Leads(w, m, c, top)
    {
      AllLeadToTop(w, m, rank, top, c);
    }
    forall c, p, d | c in m && IssuerPath(w, m, p, c, d) && !Verified(w, m, d)
      ensures d == top
    {
      WalkEndsAtTop(w, m, rank, top, p, c, d);
    }
    hide Leads, IssuerPath, Verified, IsTop, Ranked, Anchored;
  }

  /**
   When no certificates sign each other in a circle, an accepted set is a tree of
   signatures: there is one top, it is anchored, every certificate leads to it, and
   every walk along issuers ends there. An anchor has signed it, unless it came later
   and libcrypto calls it valid.
   */
  lemma AcceptedIsAnchored(w: World, chain: seq<Cert>, rank: Cert -> nat)
    requires AcceptsChain(w, chain) && Ranked(w, multiset(Presented(chain)), rank)
    ensures exists top :: IsRoot(w, multiset(Presented(chain)), Store(chain), top)
                          && (AnchorSigned(w, top) || (top != chain[0] && w.storeAnswer(top, Store(chain)) == Valid))
  {
    hide IsRoot, IsTop, Ranked, Anchored, AnchorSigned;
    var m := multiset(Presented(chain));
    var top :| top in m && IsTop(w, m, top) && Anchored(w, top, Store(chain));
    TopIsRoot(w, m, Store(chain), rank, top);
    AnchoredBy(w, chain, top);
  }

  // ----- circles -----

  /** A set without the top that contains every issuer of its members. */
  ghost predicate SelfContained(w: World, m: multiset<Cert>, top: Cert, s: set<Cert>) {
    s != {} && top !in s && (forall c :: c in s ==> c in m)
    && forall c, d :: c in s && d in m - multiset{c} && w.verifies(c, d) ==> d in s
  }

  lemma {:induction false} WalkStays(w: World, m: multiset<Cert>, top: Cert, s: set<Cert>, p: seq<Cert>, c: Cert, d: Cert)
    requires SelfContained(w, m, top, s) && c in s && IssuerPath(w, m, p, c, d)
    ensures d in s
    decreases |p|
  {
    if |p| > 1 {
      assert p[1] in m - multiset{p[0]} && w.verifies(p[0], p[1]);
      var q := p[1..];
      forall i | 0 <= i < |q| - 1
        ensures q[i + 1] in m - multiset{q[i]} && w.verifies(q[i], q[i + 1])
      {
        assert q[i] == p[i + 1] && q[i + 1] == p[i + 1 + 1];
      }
      WalkStays(w, m, top, s, q, p[1], d);
    }
  }

  lemma StrayAreSelfContained(w: World, m: multiset<Cert>, top: Cert, s: set<Cert>)
    requires s == (set c | c in m && !Leads(w, m, c, top)) && s != {}
    ensures SelfContained(w, m, top, s)
  {
    assert IssuerPath(w, m, [top], top, top);
    forall c, d | c in s && d in m - multiset{c} && w.verifies(c, d)
      ensures d in s
    {
      if Leads(w, m, d, top) {
        LeadsStep(w, m, c, d, top);
      }
    }
  }

  lemma NoneLeaves(w: World, m: multiset<Cert>, top: Cert, s: set<Cert>, c: Cert)
    requires SelfContained(w, m, top, s) && c in s
    ensures !Leads(w, m, c, top)
  {
    forall p
      ensures !IssuerPath(w, m, p, c, top)
    {
      if IssuerPath(w, m, p, c, top) {
        WalkStays(w, m, top, s, p, c, top);
      }
    }
  }

  /** Every certificate leads to the top exactly when no group signs only among itself. */
  lemma LeadsExactly(w: World, m: multiset<Cert>, top: Cert)
    ensures (forall c :: c in m ==> Leads(w, m, c, top)) <==> !exists s :: SelfContained(w, m, top, s)
  {
    if s :| SelfContained(w, m, top, s) {
      var c :| c in s;
      NoneLeaves(w, m, top, s, c);
      assert c in m;
    }
    var stray := set c | c in m && !Leads(w, m, c, top);
    assert forall c :: c in m ==> c in stray || Leads(w, m, c, top);
    if stray != {} {
      StrayAreSelfContained(w, m, top, stray);
    }
  }

  /** `a` and `b` have signed each other and an anchor has signed `top`; libcrypto calls `top` valid and fails on the others. */
  function CrossWorld(a: Cert, b: Cert, top: Cert, anchor: Cert): World {
    World((c, d) => (c == a && d == b) || (c == b && d == a) || (c == top && d == anchor),
          _ => true, (c, _) => if c == top then Valid else SignatureFailure, [anchor])
  }

  /** Two certificates that sign each other are accepted beside an anchored one that signed neither, with the rest in either order. */
  lemma CrossSigningAccepted(a: Cert, b: Cert, top: Cert, anchor: Cert)
    requires a != b && b != top && a != top && anchor !in {a, b, top}
    ensures var w, m := CrossWorld(a, b, top, anchor), multiset{a, b, top};
            && AnchorSigned(w, top) && AcceptsChain(w, [a, b, top]) && AcceptsChain(w, [a, top, b])
            && !Leads(w, m, a, top) && !Leads(w, m, b, top)
  {
    var w, m := CrossWorld(a, b, top, anchor), multiset{a, b, top};
    CrossTop(a, b, top, anchor);
    NoneLeaves(w, m, top, {a, b}, a);
    NoneLeaves(w, m, top, {a, b}, b);
    hide *;
    CrossAccepts(a, b, top, anchor, [a, b, top]);
    CrossAccepts(a, b, top, anchor, [a, top, b]);
  }

  lemma CrossTop(a: Cert, b: Cert, top: Cert, anchor: Cert)
    requires a != b && b != top && a != top && anchor !in {a, b, top}
    ensures Eligible(CrossWorld(a, b, top, anchor), multiset{a, b, top}, top)
    ensures SelfContained(CrossWorld(a, b, top, anchor), multiset{a, b, top}, top, {a, b})
    ensures AnchorSigned(CrossWorld(a, b, top, anchor), top)
  {
    var w, m := CrossWorld(a, b, top, anchor), multiset{a, b, top};
    assert b in m - multiset{a} && w.verifies(a, b);
    assert a in m - multiset{b} && w.verifies(b, a);
    assert anchor in w.anchors && w.verifies(top, anchor);
  }

  lemma CrossAccepts(a: Cert, b: Cert, top: Cert, anchor: Cert, chain: seq<Cert>)
    requires a != b && b != top && a != top && anchor !in {a, b, top}
    requires chain != [] && chain[0] == a && |chain| == 3 && multiset(chain) == multiset{a, b, top}
    ensures AcceptsChain(CrossWorld(a, b, top, anchor), chain)
  {
    hide Accepts, Eligible, SelfContained, AnchorSigned;
    CrossTop(a, b, top, anchor);
    OnlyTop(CrossWorld(a, b, top, anchor), multiset(chain), top, Store(chain));
  }

  // ----- the loops -----

  /** At position `i` the loop finds an issuer. */
  ghost predicate VerifiedAt(w: World, all: seq<Cert>, i: nat)
    requires i < |all|
  {
    exists j :: 0 <= j < |all| && j != i && w.verifies(all[i], all[j])
  }

  lemma Without(all: seq<Cert>, i: nat)
    requires i < |all|
    ensures multiset(all) - multiset{all[i]} == multiset(all[..i] + all[i + 1..])
  {
    assert all == all[..i] + [all[i]] + all[i + 1..];
  }

  lemma OthersAre(all: seq<Cert>, i: nat, d: Cert)
    requires i < |all|
    ensures d in multiset(all) - multiset{all[i]} <==> exists j :: 0 <= j < |all| && j != i && all[j] == d
  {
    var rest := all[..i] + all[i + 1..];
    Without(all, i);
    if d in multiset(rest) {
      var k :| 0 <= k < |rest| && rest[k] == d;
      var j := if k < i then k else k + 1;
      assert all[j] == d;
    }
    if j :| 0 <= j < |all| && j != i && all[j] == d {
      assert rest[if j < i then j else j - 1] == d;
    }
  }

  /** Whether an issuer is found depends on the certificates, not on where they are. */
  lemma VerifiedAtMeans(w: World, all: seq<Cert>, i: nat)
    requires i < |all|
    ensures VerifiedAt(w, all, i) <==> Verified(w, multiset(all), all[i])
  {
    if VerifiedAt(w, all, i) {
      var j :| 0 <= j < |all| && j != i && w.verifies(all[i], all[j]);
      OthersAre(all, i, all[j]);
    }
    if Verified(w, multiset(all), all[i]) {
      var d :| d in multiset(all) - multiset{all[i]} && w.verifies(all[i], d);
      OthersAre(all, i, d);
    }
  }

  /** Exactly one position without an issuer is exactly a top. */
  lemma TopAt(w: World, all: seq<Cert>, t: nat)
    requires t < |all|
    ensures (!VerifiedAt(w, all, t) && forall i :: 0 <= i < |all| && i != t ==> VerifiedAt(w, all, i))
       <==> IsTop(w, multiset(all), all[t])
  {
    forall i | 0 <= i < |all|
      ensures VerifiedAt(w, all, i) <==> Verified(w, multiset(all), all[i])
    {
      VerifiedAtMeans(w, all, i);
    }
    OthersAre(all, t, all[t]);
    assert forall c :: c in multiset(all) <==> c in all;
  }

  method FindIssuer(w: World, all: seq<Cert>, i: nat) returns (found: bool)
    requires i < |all|
    ensures found == VerifiedAt(w, all, i)
  {
    for j := 0 to |all|
      invariant forall k :: 0 <= k < j && k != i ==> !w.verifies(all[i], all[k])
    {
      if i == j {
        continue;
      }
      if w.verifies(all[i], all[j]) {
        return true;
      }
    }
    return false;
  }

  method MarkVerified(w: World, all: seq<Cert>, verified: array<bool>) returns (links: nat)
    requires verified.Length == |all|
    modifies verified
    ensures forall i :: 0 <= i < |all| ==> verified[i] == VerifiedAt(w, all, i)
    ensures links > 0 <==> exists i :: 0 <= i < |all| && verified[i]
  {
    links := 0;
    for i := 0 to |all|
      invariant forall k :: 0 <= k < i ==> verified[k] == VerifiedAt(w, all, k)
      invariant links > 0 <==> exists k :: 0 <= k < i && verified[k]
    {
      verified[i] := false;
      var found := FindIssuer(w, all, i);
      if found {
        verified[i] := true;
        links := links + 1;
      }
    }
  }

  /** `top` is the last position without an issuer, and the only one exactly when `unverified` is 1. */
  method FindTop(verified: array<bool>) returns (unverified: nat, top: int)
    ensures unverified == 1 ==> 0 <= top < verified.Length && !verified[top]
    ensures unverified == 1 ==> forall i :: 0 <= i < verified.Length && i != top ==> verified[i]
    ensures unverified != 1 ==> forall t :: 0 <= t < verified.Length && !verified[t] ==>
                                  exists i :: 0 <= i < verified.Length && i != t && !verified[i]
  {
    unverified, top := 0, -1;
    ghost var first := 0;
    for i := 0 to verified.Length
      invariant unverified == 0 ==> forall k :: 0 <= k < i ==> verified[k]
      invariant unverified == 1 ==> 0 <= top < i && !verified[top] && forall k :: 0 <= k < i && k != top ==> verified[k]
      invariant unverified > 1 ==> 0 <= first < top < i && !verified[first] && !verified[top]
    {
      if !verified[i] {
        first := if unverified > 0 then top else 0;
        unverified, top := unverified + 1, i;
      }
    }
  }

  method AllInTime(w: World, all: array<Cert>) returns (ok: bool)
    ensures ok <==> forall c :: c in all[..] ==> w.timeOk(c)
  {
    for i := 0 to all.Length
      invariant forall k :: 0 <= k < i ==> w.timeOk(all[k])
    {
      if !w.timeOk(all[i]) {
        assert all[i] in all[..];
        return false;
      }
    }
    return true;
  }

  method IsAnchored(w: World, top: Cert, store: multiset<Cert>) returns (ok: bool)
    ensures ok == Anchored(w, top, store)
  {
    match w.storeAnswer(top, store)
    case Valid => return true;
    case OtherFailure => return false;
    case SignatureFailure =>
      for i := 0 to |w.anchors|
        invariant forall k :: 0 <= k < i ==> !w.verifies(top, w.anchors[k])
      {
        if w.verifies(top, w.anchors[i]) {
          return true;
        }
      }
      return false;
  }

  /** Counts the positions without an issuer; there is one exactly when there is a top. */
  method FindChainTop(w: World, all: seq<Cert>) returns (unverified: nat, top: int, links: nat)
    requires |all| > 0
    ensures unverified == 1 ==> 0 <= top < |all| && IsTop(w, multiset(all), all[top])
    ensures unverified == 1 ==> (links > 0 <==> |all| >= 2)
    ensures unverified != 1 ==> forall c :: c in all ==> !IsTop(w, multiset(all), c)
  {
    var verified := new bool[|all|];
    links := MarkVerified(w, all, verified);
    unverified, top := FindTop(verified);
    forall t | 0 <= t < |all|
      ensures (!verified[t] && forall i :: 0 <= i < |all| && i != t ==> verified[i]) <==> IsTop(w, multiset(all), all[t])
    {
      TopAt(w, all, t);
    }
    hide IsTop;
    if unverified == 1 && |all| >= 2 {
      assert verified[if top == 0 then 1 else 0];
    }
  }

  method Swap(all: array<Cert>, i: nat, j: nat)
    requires i < all.Length && j < all.Length
    modifies all
    ensures multiset(all[..]) == old(multiset(all[..]))
    ensures all[i] == old(all[j]) && all[j] == old(all[i])
  {
    all[i], all[j] := all[j], all[i];
  }

  /** The links of the presented certificates; the top is swapped to the end. */
  method CheckLinks(w: World, all: array<Cert>) returns (ok: bool, links: nat)
    requires all.Length > 0
    modifies all
    ensures multiset(all[..]) == old(multiset(all[..]))
    ensures ok ==> IsTop(w, multiset(all[..]), all[all.Length - 1]) && (links > 0 <==> all.Length >= 2)
    ensures !ok ==> forall c :: c in multiset(all[..]) ==> !IsTop(w, multiset(all[..]), c)
  {
    hide IsTop;
    var unverified, top;
    unverified, top, links := FindChainTop(w, all[..]);
    ok := unverified == 1;
    if ok {
      Swap(all, all.Length - 1, top);
    }
  }

  /** The check by hand, once entered. */
  method CheckByHand(w: World, chain: seq<Cert>) returns (ok: bool)
    requires chain != []
    ensures ok == Accepts(w, multiset(Presented(chain)), Store(chain))
  {
    var presented := Presented(chain);
    var all := new Cert[|presented|](i requires 0 <= i < |presented| => presented[i]);
    assert all[..] == presented;
    var m := multiset(presented);
    var links;
    ok, links := CheckLinks(w, all);
    if !ok {
      return false;
    }
    ok := AllInTime(w, all);
    assert forall c :: c in all[..] <==> c in m;
    if !ok || links == 0 {
      return false;
    }
    var top := all[all.Length - 1];
    OnlyTop(w, m, top, Store(chain));
    ok := IsAnchored(w, top, Store(chain));
  }

  /** The verdict on a received chain: libcrypto's, or by hand where it failed on a signature. */
  method CheckChain(w: World, chain: seq<Cert>) returns (ok: bool)
    ensures ok == ValidChain(w, chain)
  {
    if |chain| == 0 {
      return false;
    }
    match w.storeAnswer(chain[0], Store(chain))
    case Valid => return true;
    case OtherFailure => return false;
    case SignatureFailure => ok := CheckByHand(w, chain);
  }
}
