/**
 The ARP cache of arp.fs: five entries with ages, where a learned address takes the entry that holds it
 already or else the oldest one. The age 255 marks an entry that is not in use.
 */
module ArpCache {
  import opened Words

  const ENTRIES := 5
  const UNUSED := 255

  type Ip = (Word, Word)
  type Mac = (Word, Word, Word)

  datatype Entry = Entry(age: nat, mac: Mac, ip: Ip) {
    predicate Used() {
      age != UNUSED
    }
  }

  /** What an ARP response tells. */
  datatype Response = Response(mac: Mac, ip: Ip)

  // ---------------------------------------------------------------- the words, on values

  function AgedEntry(e: Entry): Entry {
    if e.Used() then e.(age := e.age + 1) else e
  }

  function Aged(es: seq<Entry>): (r: seq<Entry>)
    ensures |r| == |es| && forall i :: 0 <= i < |es| ==> r[i] == AgedEntry(es[i])
  {
    seq(|es|, i requires 0 <= i < |es| => AgedEntry(es[i]))
  }

  /** The index that arp-oldest has after the entries from n on: of equal ages the later visited. */
  function OldestFrom(es: seq<Entry>, n: nat): (k: nat)
    requires n <= |es| == ENTRIES
    ensures k < ENTRIES
    decreases |es| - n
  {
    if n == |es| then 0
    else
      var k := OldestFrom(es, n + 1);
      if es[k].age > es[n].age then k else n
  }

  /** The index of the entry found among those from n on, or the number of entries. */
  function FoundFrom(es: seq<Entry>, n: nat, ip: Ip): (k: nat)
    requires n <= |es| == ENTRIES
    ensures k <= ENTRIES
    decreases |es| - n
  {
    if n == |es| then ENTRIES
    else if es[n].Used() && es[n].ip == ip then n
    else FoundFrom(es, n + 1, ip)
  }

  /** The entry that a response goes into. */
  function Slot(es: seq<Entry>, ip: Ip): (k: nat)
    requires |es| == ENTRIES
    ensures k < ENTRIES
  {
    var k := FoundFrom(es, 0, ip);
    if k < ENTRIES then k else OldestFrom(es, 0)
  }

  function Learn(es: seq<Entry>, r: Response): (q: seq<Entry>)
    requires |es| == ENTRIES
    ensures |q| == ENTRIES
  {
    Aged(es)[Slot(es, r.ip) := Entry(0, r.mac, r.ip)]
  }

  predicate Holds(es: seq<Entry>, ip: Ip) {
    exists i :: 0 <= i < |es| && es[i].Used() && es[i].ip == ip
  }

  lemma {:induction false} OldestIsOldest(es: seq<Entry>, n: nat)
    requires n <= |es| == ENTRIES
    ensures forall i :: n <= i < ENTRIES ==> es[i].age <= es[OldestFrom(es, n)].age
    ensures es[0].age <= es[OldestFrom(es, n)].age
    decreases |es| - n
  {
    if n < |es| {
      OldestIsOldest(es, n + 1);
    }
  }

  lemma {:induction false} FoundIsFound(es: seq<Entry>, n: nat, ip: Ip)
    requires n <= |es| == ENTRIES
    ensures var k := FoundFrom(es, n, ip);
      if k < ENTRIES then n <= k && es[k].Used() && es[k].ip == ip
      else forall i :: n <= i < ENTRIES ==> !(es[i].Used() && es[i].ip == ip)
    decreases |es| - n
  {
    if n < |es| && !(es[n].Used() && es[n].ip == ip) {
      FoundIsFound(es, n + 1, ip);
    }
  }

  // ---------------------------------------------------------------- what has been learned

  /** The last response about an address, or -1. */
  function Last(h: seq<Response>, ip: Ip): (k: int)
    ensures -1 <= k < |h| && (k >= 0 ==> h[k].ip == ip)
    ensures forall j :: k < j < |h| ==> h[j].ip != ip
  {
    if h == [] then -1
    else if h[|h| - 1].ip == ip then |h| - 1
    else Last(h[..|h| - 1], ip)
  }

  /** The responses since then. */
  function Since(h: seq<Response>, ip: Ip): nat {
    |h| - 1 - Last(h, ip)
  }

  /** The addresses learned since then. */
  function Later(h: seq<Response>, ip: Ip): set<Ip> {
    set k | Last(h, ip) < k < |h| :: h[k].ip
  }

  predicate Learned(h: seq<Response>, ip: Ip) {
    Last(h, ip) >= 0
  }

  /** The entry says what was learned last about its address, and how long ago. */
  predicate Right(e: Entry, h: seq<Response>) {
    e.age <= UNUSED
    && (e.Used() ==> Learned(h, e.ip) && e.age == Since(h, e.ip) && e.mac == h[Last(h, e.ip)].mac)
  }

  /** All entries are in use and younger than the address. */
  predicate AllYounger(es: seq<Entry>, h: seq<Response>, ip: Ip) {
    forall i :: 0 <= i < |es| ==> es[i].Used() && es[i].age < Since(h, ip)
  }

  predicate Distinct(es: seq<Entry>) {
    forall i, j :: 0 <= i < j < |es| && es[i].Used() && es[j].Used() ==> es[i].ip != es[j].ip
  }

  /** An address is missing only when it is too old, or when all entries are younger. */
  ghost predicate Complete(es: seq<Entry>, h: seq<Response>) {
    forall ip: Ip :: Learned(h, ip) && Since(h, ip) < UNUSED && !Holds(es, ip) ==> AllYounger(es, h, ip)
  }

  ghost predicate Inv(es: seq<Entry>, h: seq<Response>) {
    && |es| == ENTRIES && Distinct(es) && Complete(es, h)
    && forall i :: 0 <= i < |es| ==> Right(es[i], h)
  }

  lemma LastMore(h: seq<Response>, r: Response, ip: Ip)
    ensures Last(h + [r], ip) == if ip == r.ip then |h| else Last(h, ip)
    ensures Since(h + [r], ip) == if ip == r.ip then 0 else Since(h, ip) + 1
  {
  }

  /** Ages of different entries in use are different. */
  lemma AgesDiffer(es: seq<Entry>, h: seq<Response>, i: nat, j: nat)
    requires Inv(es, h) && i < |es| && j < |es| && i != j && es[i].Used() && es[j].Used()
    ensures es[i].age != es[j].age
  {
  }

  lemma RightMore(es: seq<Entry>, h: seq<Response>, r: Response, i: nat)
    requires Inv(es, h) && i < ENTRIES
    ensures Right(Learn(es, r)[i], h + [r])
  {
    LastMore(h, r, r.ip);
    LastMore(h, r, es[i].ip);
    FoundIsFound(es, 0, r.ip);
    var k := Slot(es, r.ip);
    assert es[i].Used() && es[i].ip == r.ip ==> es[k].Used() && es[k].ip == es[i].ip;
  }

  lemma DistinctMore(es: seq<Entry>, h: seq<Response>, r: Response)
    requires Inv(es, h)
    ensures Distinct(Learn(es, r))
  {
    FoundIsFound(es, 0, r.ip);
    var q, k := Learn(es, r), Slot(es, r.ip);
    forall i, j | 0 <= i < j < ENTRIES && q[i].Used() && q[j].Used()
      ensures q[i].ip != q[j].ip
    {
      assert i != k ==> es[i].Used() && q[i].ip == es[i].ip;
      assert j != k ==> es[j].Used() && q[j].ip == es[j].ip;
    }
  }

  /** An address that was missing and still is. */
  lemma StillMissing(es: seq<Entry>, h: seq<Response>, r: Response, ip: Ip)
    requires Inv(es, h) && ip != r.ip && Learned(h, ip) && Since(h, ip) + 1 < UNUSED && !Holds(es, ip)
    ensures AllYounger(Learn(es, r), h + [r], ip)
  {
  }

  lemma OthersAge(es: seq<Entry>, r: Response, i: nat)
    requires |es| == ENTRIES && i < ENTRIES && es[i].age + 1 < UNUSED
    ensures i != Slot(es, r.ip) ==> Holds(Learn(es, r), es[i].ip)
  {
    assert Aged(es)[i].Used() && Aged(es)[i].ip == es[i].ip;
    if i != Slot(es, r.ip) {
      assert Learn(es, r)[i] == Aged(es)[i];
    }
  }

  /** The address that had to make room: it was the oldest, and there was no unused entry. */
  lemma MadeRoom(es: seq<Entry>, h: seq<Response>, r: Response, ip: Ip)
    requires Inv(es, h) && ip != r.ip && Learned(h, ip) && Since(h, ip) + 1 < UNUSED
    requires Holds(es, ip) && !Holds(Learn(es, r), ip)
    ensures AllYounger(Learn(es, r), h + [r], ip)
  {
    LastMore(h, r, ip);
    FoundIsFound(es, 0, r.ip);
    OldestIsOldest(es, 0);
    var q, k := Learn(es, r), Slot(es, r.ip);
    var i :| 0 <= i < |es| && es[i].Used() && es[i].ip == ip;
    OthersAge(es, r, i);
    forall j | 0 <= j < ENTRIES
      ensures q[j].Used() && q[j].age < Since(h + [r], ip)
    {
      if j != k {
        assert es[j].age <= es[k].age;
        AgesDiffer(es, h, j, k);
      }
    }
  }

  lemma CompleteMore(es: seq<Entry>, h: seq<Response>, r: Response)
    requires Inv(es, h)
    ensures Complete(Learn(es, r), h + [r])
  {
    var q, k := Learn(es, r), Slot(es, r.ip);
    assert q[k].Used() && q[k].ip == r.ip;
    forall ip: Ip | Learned(h + [r], ip) && Since(h + [r], ip) < UNUSED && !Holds(q, ip)
      ensures AllYounger(q, h + [r], ip)
    {
      LastMore(h, r, ip);
      if Holds(es, ip) {
        MadeRoom(es, h, r, ip);
      } else {
        StillMissing(es, h, r, ip);
      }
    }
  }

  lemma LearnKeeps(es: seq<Entry>, h: seq<Response>, r: Response)
    requires Inv(es, h)
    ensures Inv(Learn(es, r), h + [r])
  {
    DistinctMore(es, h, r);
    CompleteMore(es, h, r);
    forall i | 0 <= i < ENTRIES
      ensures Right(Learn(es, r)[i], h + [r])
    {
      RightMore(es, h, r, i);
    }
  }

  /** A cache on which arp-reset has been called. */
  predicate IsReset(es: seq<Entry>) {
    |es| == ENTRIES && forall i :: 0 <= i < ENTRIES ==> es[i].age == UNUSED
  }

  /** The cache after a history of responses. */
  function After(es: seq<Entry>, h: seq<Response>): (q: seq<Entry>)
    requires |es| == ENTRIES
    ensures |q| == ENTRIES
  {
    if h == [] then es else Learn(After(es, h[..|h| - 1]), h[|h| - 1])
  }

  lemma {:induction false} AfterKeeps(es: seq<Entry>, h: seq<Response>)
    requires IsReset(es)
    ensures Inv(After(es, h), h)
  {
    if h != [] {
      var front := h[..|h| - 1];
      AfterKeeps(es, front);
      LearnKeeps(After(es, front), front, h[|h| - 1]);
      assert front + [h[|h| - 1]] == h;
    }
  }

  // ---------------------------------------------------------------- least recently learned

  lemma {:induction false} SmallerSet<T>(a: set<T>, b: set<T>)
    requires a <= b
    ensures |a| <= |b|
    decreases |b|
  {
    if a != {} {
      var x :| x in a;
      SmallerSet(a - {x}, b - {x});
    }
  }

  /** The addresses of five entries that are all different. */
  lemma FiveAddresses(es: seq<Entry>)
    requires |es| == ENTRIES && Distinct(es) && forall i :: 0 <= i < ENTRIES ==> es[i].Used()
    ensures |{es[0].ip, es[1].ip, es[2].ip, es[3].ip, es[4].ip}| == ENTRIES
  {
  }

  /** An address learned more recently than another stands later in the history. */
  lemma YoungerIsLater(h: seq<Response>, a: Ip, b: Ip)
    requires Learned(h, a) && Learned(h, b) && Since(h, a) < Since(h, b)
    ensures a in Later(h, b)
  {
  }

  /** With five entries younger than an address, five others have been learned since. */
  lemma FiveSince(es: seq<Entry>, h: seq<Response>, ip: Ip)
    requires Inv(es, h) && Learned(h, ip) && AllYounger(es, h, ip)
    ensures |Later(h, ip)| >= ENTRIES
  {
    var five := {es[0].ip, es[1].ip, es[2].ip, es[3].ip, es[4].ip};
    FiveAddresses(es);
    forall i | 0 <= i < ENTRIES
      ensures es[i].ip in Later(h, ip)
    {
      assert Right(es[i], h);
      YoungerIsLater(h, es[i].ip, ip);
    }
    assert five <= Later(h, ip);
    SmallerSet(five, Later(h, ip));
  }

  /** What has been learned since an address that is held is held too. */
  lemma LaterHeld(es: seq<Entry>, h: seq<Response>, i: nat, other: Ip)
    requires Inv(es, h) && i < ENTRIES && es[i].Used() && other in Later(h, es[i].ip)
    ensures Holds(es, other) && other != es[i].ip
  {
  }

  lemma FourSince(es: seq<Entry>, h: seq<Response>, i: nat)
    requires Inv(es, h) && i < ENTRIES && es[i].Used()
    ensures |Later(h, es[i].ip)| < ENTRIES
  {
    var ip := es[i].ip;
    var held := {es[0].ip, es[1].ip, es[2].ip, es[3].ip, es[4].ip};
    forall other | other in Later(h, ip)
      ensures other in held - {ip}
    {
      LaterHeld(es, h, i, other);
    }
    assert Later(h, ip) <= held - {ip};
    SmallerSet(Later(h, ip), held - {ip});
    AtMostFive(es[0].ip, es[1].ip, es[2].ip, es[3].ip, es[4].ip);
    assert |held - {ip}| == |held| - 1;
  }

  lemma AtMostFive<T>(a: T, b: T, c: T, d: T, e: T)
    ensures |{a, b, c, d, e}| <= 5
  {
  }

  /**
   After any history from a reset: looking up an address hits if and only if it has been learned, fewer
   than 255 learnings ago, and fewer than five other addresses have been learned since; and then the
   entry has the hardware address that was learned last.
   */
  lemma LookupIff(es: seq<Entry>, h: seq<Response>, ip: Ip)
    requires IsReset(es)
    ensures var q, k := After(es, h), FoundFrom(After(es, h), 0, ip);
      && (k < 5 <==> Learned(h, ip) && Since(h, ip) < 255 && |Later(h, ip)| < 5)
      && (k < 5 ==> q[k].ip == ip && q[k].mac == h[Last(h, ip)].mac)
  {
    var q := After(es, h);
    AfterKeeps(es, h);
    FoundIsFound(q, 0, ip);
    var k := FoundFrom(q, 0, ip);
    if k < ENTRIES {
      assert Right(q[k], h);
      FourSince(q, h, k);
    } else if Learned(h, ip) && Since(h, ip) < UNUSED {
      assert !Holds(q, ip);
      FiveSince(q, h, ip);
    }
  }

  /** Over every history, entries in use have different addresses and different ages. */
  lemma AlwaysDistinct(es: seq<Entry>, h: seq<Response>, i: nat, j: nat)
    requires IsReset(es) && i < ENTRIES && j < ENTRIES && i != j
    ensures var q := After(es, h);
      q[i].Used() && q[j].Used() ==> q[i].ip != q[j].ip && q[i].age != q[j].age
  {
    var q := After(es, h);
    AfterKeeps(es, h);
    if q[i].Used() && q[j].Used() {
      AgesDiffer(q, h, i, j);
      assert Distinct(q);
    }
  }

  // ---------------------------------------------------------------- the words, in place

  class Cache {
    const entries: array<Entry>

    constructor ()
      ensures entries.Length == ENTRIES && fresh(entries) && IsReset(entries[..])
    {
      entries := new Entry[ENTRIES](_ => Entry(UNUSED, (0, 0, 0), (0, 0)));
    }

    /** arp-reset */
    method Reset()
      requires entries.Length == ENTRIES
      modifies entries
      ensures IsReset(entries[..])
    {
      var n := ENTRIES;
      while n > 0
        invariant 0 <= n <= ENTRIES && forall i :: n <= i < ENTRIES ==> entries[i].age == UNUSED
      {
        n := n - 1;
        entries[n] := entries[n].(age := UNUSED);
      }
    }

    /** arp-age: every entry in use gets older, and after 255 it is no longer in use. */
    method Age()
      requires entries.Length == ENTRIES
      modifies entries
      ensures entries[..] == Aged(old(entries[..]))
    {
      var n := ENTRIES;
      while n > 0
        invariant 0 <= n <= ENTRIES
        invariant forall i :: n <= i < ENTRIES ==> entries[i] == AgedEntry(old(entries[i]))
        invariant forall i :: 0 <= i < n ==> entries[i] == old(entries[i])
      {
        n := n - 1;
        if entries[n].Used() {
          entries[n] := entries[n].(age := entries[n].age + 1);
        }
      }
    }

    /** arp-oldest */
    method Oldest() returns (k: nat)
      requires entries.Length == ENTRIES
      ensures k == OldestFrom(entries[..], 0)
      ensures k < ENTRIES && forall i :: 0 <= i < ENTRIES ==> entries[i].age <= entries[k].age
    {
      k := 0;
      var n := ENTRIES;
      while n > 0
        invariant 0 <= n <= ENTRIES && k == OldestFrom(entries[..], n)
      {
        n := n - 1;
        if entries[k].age <= entries[n].age {
          k := n;
        }
      }
      OldestIsOldest(entries[..], 0);
    }

    /** arp-cache-find: all entries are visited, and the last match counts. */
    method Find(ip: Ip) returns (k: nat)
      requires entries.Length == ENTRIES
      ensures k == FoundFrom(entries[..], 0, ip)
    {
      k := ENTRIES;
      var n := ENTRIES;
      while n > 0
        invariant 0 <= n <= ENTRIES && k == FoundFrom(entries[..], n, ip)
      {
        n := n - 1;
        if entries[n].Used() && entries[n].ip == ip {
          k := n;
        }
      }
    }

    /** arp-cache-write */
    method Write(k: nat, r: Response)
      requires entries.Length == ENTRIES && k < ENTRIES
      modifies entries
      ensures entries[..] == Aged(old(entries[..]))[k := Entry(0, r.mac, r.ip)]
    {
      Age();
      entries[k] := entries[k].(age := 0);
      entries[k] := entries[k].(mac := r.mac);
      entries[k] := entries[k].(ip := r.ip);
    }

    /** arp-handler, for a packet that is a response or not. */
    method Handle(isResponse: bool, r: Response, ghost h: seq<Response>)
      requires entries.Length == ENTRIES && Inv(entries[..], h)
      modifies entries
      ensures entries[..] == if isResponse then Learn(old(entries[..]), r) else old(entries[..])
      ensures Inv(entries[..], if isResponse then h + [r] else h)
    {
      if isResponse {
        LearnKeeps(entries[..], h, r);
        var k := Find(r.ip);
        if k == ENTRIES {
          k := Oldest();
        }
        Write(k, r);
      }
    }

    /** All responses of a history, from a reset, and then a lookup. */
    method LearnAndFind(h: seq<Response>, ip: Ip) returns (k: nat)
      requires entries.Length == ENTRIES && IsReset(entries[..])
      modifies entries
      ensures k < 5 <==> Learned(h, ip) && Since(h, ip) < 255 && |Later(h, ip)| < 5
      ensures k < 5 ==> entries[k].ip == ip && entries[k].mac == h[Last(h, ip)].mac
    {
      ghost var es := entries[..];
      assert h[..0] == [];
      AfterKeeps(es, []);
      var i := 0;
      while i < |h|
        invariant i <= |h| && entries[..] == After(es, h[..i]) && Inv(entries[..], h[..i])
      {
        assert h[..i + 1] == h[..i] + [h[i]];
        Handle(true, h[i], h[..i]);
        assert h[..i + 1][..i] == h[..i];
        i := i + 1;
      }
      assert h[..i] == h;
      LookupIff(es, h, ip);
      k := Find(ip);
    }
  }
}
