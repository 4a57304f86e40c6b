/** Candidate normalization: ranking, one entry per endpoint, sorted.  `inet_pton` is an arbitrary function from
    address texts to addresses. */
module Candidates {
  import opened Bytes

  const CANDIDATES_MAX: nat := 16

  datatype Kind = Host | Lan | Public | Srflx | Prflx | Predicted | Proxy

  datatype Candidate = Candidate(kind: Kind, addr: seq<byte>, port: nat, priority: nat)

  datatype Address = NoAddress | V4(bits: nat) | V6(bits: nat)

  type Resolver = seq<byte> -> Address

  function Order(k: Kind): nat {
    match k
    case Host => 1
    case Lan => 2
    case Public => 3
    case Srflx => 4
    case Prflx => 5
    case Predicted => 6
    case Proxy => 7
  }

  /** `redp2p_candidate_priority`. */
  function Priority(resolve: Resolver, c: Candidate): nat {
    var address := resolve(c.addr);
    if address.NoAddress? || c.kind.Proxy? then 900
    else (if address.V6? then 100 else 200) + 10 * (Order(c.kind) - 1)
  }

  function Ranked(resolve: Resolver, c: Candidate): Candidate {
    c.(priority := Priority(resolve, c))
  }

  /** The candidates that the function does not refuse. */
  predicate Acceptable(resolve: Resolver, c: Candidate) {
    c.port != 0 && !resolve(c.addr).NoAddress? && Priority(resolve, c) < 900
  }

  /** `redp2p_candidate_same_endpoint`. */
  predicate Same(resolve: Resolver, a: Candidate, b: Candidate) {
    && a.port == b.port && a.port != 0
    && resolve(a.addr) == resolve(b.addr) && !resolve(a.addr).NoAddress?
  }

  /** `strcmp`, as a sign. */
  function StrCmp(a: seq<byte>, b: seq<byte>): int {
    if a == [] && b == [] then 0
    else if a == [] then -1
    else if b == [] then 1
    else if a[0] != b[0] then (if a[0] < b[0] then -1 else 1)
    else StrCmp(a[1..], b[1..])
  }

  /** `redp2p_candidate_compare`. */
  function Compare(a: Candidate, b: Candidate): int {
    if a.priority != b.priority then (if a.priority < b.priority then -1 else 1)
    else if a.kind != b.kind then Order(a.kind) - Order(b.kind)
    else if StrCmp(a.addr, b.addr) != 0 then StrCmp(a.addr, b.addr)
    else a.port - b.port
  }

  predicate Less(a: Candidate, b: Candidate) {
    Compare(a, b) < 0
  }

  // --------------------------------------------------------------- total order

  lemma {:induction false} StrCmpOrder(a: seq<byte>, b: seq<byte>)
    ensures StrCmp(a, b) == 0 <==> a == b
    ensures StrCmp(a, b) == -StrCmp(b, a)
  {
    if a != [] && b != [] && a[0] == b[0] {
      StrCmpOrder(a[1..], b[1..]);
      assert a == [a[0]] + a[1..] && b == [b[0]] + b[1..];
    }
  }

  lemma {:induction false} StrCmpTransitive(a: seq<byte>, b: seq<byte>, c: seq<byte>)
    requires StrCmp(a, b) < 0 && StrCmp(b, c) < 0
    ensures StrCmp(a, c) < 0
  {
    if a != [] && b != [] && c != [] && a[0] == b[0] == c[0] {
      StrCmpTransitive(a[1..], b[1..], c[1..]);
    }
  }

  lemma OrderInjective(a: Kind, b: Kind)
    ensures Order(a) == Order(b) ==> a == b
  {
  }

  lemma LessTotal(a: Candidate, b: Candidate)
    ensures Less(a, b) || Less(b, a) || a == b
    ensures !(Less(a, b) && Less(b, a)) && !Less(a, a)
  {
    StrCmpOrder(a.addr, b.addr);
    StrCmpOrder(a.addr, a.addr);
    OrderInjective(a.kind, b.kind);
  }

  lemma LessTransitive(a: Candidate, b: Candidate, c: Candidate)
    requires Less(a, b) && Less(b, c)
    ensures Less(a, c)
  {
    StrCmpOrder(a.addr, b.addr);
    StrCmpOrder(b.addr, c.addr);
    if StrCmp(a.addr, b.addr) < 0 && StrCmp(b.addr, c.addr) < 0 {
      StrCmpTransitive(a.addr, b.addr, c.addr);
    }
    OrderInjective(a.kind, b.kind);
    OrderInjective(b.kind, c.kind);
  }

  /** The comparison is a strict total order on candidates. */
  lemma StrictTotalOrder(a: Candidate, b: Candidate, c: Candidate)
    ensures !Less(a, a)
    ensures Less(a, b) && Less(b, c) ==> Less(a, c)
    ensures Less(a, b) || Less(b, a) || a == b
  {
    LessTotal(a, b);
    if Less(a, b) && Less(b, c) {
      LessTransitive(a, b, c);
    }
  }

  /** The place of a kind in the order of preference. */
  function Place(k: Kind): nat {
    match k
    case Host => 0
    case Lan => 1
    case Public => 2
    case Srflx => 3
    case Prflx => 4
    case Predicted => 5
    case Proxy => 6
  }

  /** Refused are exactly candidates without a port, without a numeric address, or of the proxy kind. */
  lemma AcceptableMeans(resolve: Resolver, c: Candidate)
    ensures Acceptable(resolve, c) <==> c.port != 0 && !resolve(c.addr).NoAddress? && c.kind != Proxy
  {
  }

  /** IPv6 comes before IPv4, then the kinds in the order of preference, then addresses and ports. */
  lemma PreferenceMeans(resolve: Resolver, a: Candidate, b: Candidate)
    requires Acceptable(resolve, a) && Acceptable(resolve, b)
    ensures Ranked(resolve, a).priority == (if resolve(a.addr).V6? then 100 else 200) + 10 * Place(a.kind)
    ensures Less(Ranked(resolve, a), Ranked(resolve, b))
       <==> || (resolve(a.addr).V6? && resolve(b.addr).V4?)
            || (resolve(a.addr).V6? == resolve(b.addr).V6? &&
                (|| Place(a.kind) < Place(b.kind)
                 || (a.kind == b.kind && (StrCmp(a.addr, b.addr) < 0 || (a.addr == b.addr && a.port < b.port)))))
  {
    StrCmpOrder(a.addr, b.addr);
  }

  // ------------------------------------------------------------- specification

  /** `x` is an input, ranked. */
  ghost predicate Given(resolve: Resolver, input: seq<Candidate>, x: Candidate) {
    exists i :: 0 <= i < |input| && Ranked(resolve, input[i]) == x
  }

  /** `x` is the least of the inputs for its endpoint. */
  ghost predicate Chosen(resolve: Resolver, input: seq<Candidate>, x: Candidate) {
    Given(resolve, input, x) && forall y :: Given(resolve, input, y) && Same(resolve, x, y) ==> !Less(y, x)
  }

  ghost predicate Sorted(s: seq<Candidate>) {
    forall i, j :: 0 <= i < j < |s| ==> Less(s[i], s[j])
  }

  /** The canonical form of `input`. */
  ghost predicate Canonical(resolve: Resolver, input: seq<Candidate>, out: seq<Candidate>) {
    Sorted(out) && forall x :: x in out <==> Chosen(resolve, input, x)
  }

  ghost predicate AllAcceptable(resolve: Resolver, input: seq<Candidate>) {
    forall i :: 0 <= i < |input| ==> Acceptable(resolve, input[i])
  }

  lemma GivenOne(resolve: Resolver, input: seq<Candidate>, i: nat)
    requires i < |input|
    ensures Given(resolve, input, Ranked(resolve, input[i]))
  {
  }

  lemma GivenSnoc(resolve: Resolver, input: seq<Candidate>, c: Candidate, y: Candidate)
    ensures Given(resolve, input + [c], y) <==> Given(resolve, input, y) || y == Ranked(resolve, c)
  {
    if Given(resolve, input, y) {
      var i :| 0 <= i < |input| && Ranked(resolve, input[i]) == y;
      assert (input + [c])[i] == input[i];
    } else if y == Ranked(resolve, c) {
      assert (input + [c])[|input|] == c;
    }
  }

  /** Every endpoint has a least input. */
  lemma {:induction false} Least(resolve: Resolver, input: seq<Candidate>, y: Candidate) returns (x: Candidate)
    requires Given(resolve, input, y) && AllAcceptable(resolve, input)
    ensures Chosen(resolve, input, x) && Same(resolve, x, y)
  {
    x := LeastFrom(resolve, input, y, |input|);
    assert input[..|input|] == input;
  }

  lemma GivenSame(resolve: Resolver, input: seq<Candidate>, y: Candidate)
    requires Given(resolve, input, y) && AllAcceptable(resolve, input)
    ensures Same(resolve, y, y)
  {
  }

  lemma {:induction false} LeastFrom(resolve: Resolver, input: seq<Candidate>, y: Candidate, n: nat)
    returns (x: Candidate)
    requires Given(resolve, input, y) && AllAcceptable(resolve, input) && n <= |input|
    ensures Given(resolve, input, x) && Same(resolve, x, y)
    ensures forall z :: Given(resolve, input[..n], z) && Same(resolve, x, z) ==> !Less(z, x)
  {
    if n == 0 {
      x := y;
      GivenSame(resolve, input, y);
    } else {
      x := LeastFrom(resolve, input, y, n - 1);
      var c := Ranked(resolve, input[n - 1]);
      GivenOne(resolve, input, n - 1);
      var was := x;
      if Same(resolve, c, y) && Less(c, x) {
        x := c;
      }
      forall z | Given(resolve, input[..n], z) && Same(resolve, x, z)
        ensures !Less(z, x)
      {
        LeastStep(resolve, input, n - 1, was, x, z);
      }
    }
  }

  /** `x` is the lesser of `was` and input `n`. */
  lemma LeastStep(resolve: Resolver, input: seq<Candidate>, n: nat, was: Candidate, x: Candidate, z: Candidate)
    requires n < |input| && Given(resolve, input[..n + 1], z) && Same(resolve, was, z)
    requires var c := Ranked(resolve, input[n]); x == if Same(resolve, c, was) && Less(c, was) then c else was
    requires Given(resolve, input[..n], z) ==> !Less(z, was)
    ensures !Less(z, x)
  {
    assert input[..n + 1] == input[..n] + [input[n]];
    GivenSnoc(resolve, input[..n], input[n], z);
    var c := Ranked(resolve, input[n]);
    LessTotal(c, was);
    LessTotal(c, c);
    if Less(z, x) && x == c && Less(c, was) {
      LessTransitive(z, c, was);
    }
  }

  // ------------------------------------------------------------------ theorems

  lemma SortedHead(s: seq<Candidate>, t: seq<Candidate>)
    requires Sorted(s) && Sorted(t) && s != [] && t != [] && s[0] in t && t[0] in s
    ensures s[0] == t[0]
  {
    LessTotal(s[0], t[0]);
  }

  lemma {:induction false} SortedTail(s: seq<Candidate>, x: Candidate)
    requires Sorted(s) && s != []
    ensures Sorted(s[1..]) && (x in s[1..] <==> x in s && x != s[0])
  {
    LessTotal(s[0], s[0]);
    if x in s && x != s[0] {
      var i :| 0 <= i < |s| && s[i] == x;
      assert s[1..][i - 1] == x;
    }
  }

  /** A sorted list is determined by its members. */
  lemma {:induction false} SortedUnique(s: seq<Candidate>, t: seq<Candidate>)
    requires Sorted(s) && Sorted(t) && forall x :: x in s <==> x in t
    ensures s == t
  {
    if |s| > 0 || |t| > 0 {
      assert |s| > 0 ==> s[0] in t;
      assert |t| > 0 ==> t[0] in s;
      SortedHead(s, t);
      forall x
        ensures x in s[1..] <==> x in t[1..]
      {
        SortedTail(s, x);
        SortedTail(t, x);
      }
      SortedTail(s, s[0]);
      SortedTail(t, s[0]);
      SortedUnique(s[1..], t[1..]);
      assert s == [s[0]] + s[1..] && t == [t[0]] + t[1..];
    }
  }

  lemma GivenPermuted(resolve: Resolver, a: seq<Candidate>, b: seq<Candidate>, y: Candidate)
    requires multiset(a) == multiset(b) && Given(resolve, a, y)
    ensures Given(resolve, b, y)
  {
    var i :| 0 <= i < |a| && Ranked(resolve, a[i]) == y;
    assert a[i] in multiset(b);
    var j :| 0 <= j < |b| && b[j] == a[i];
  }

  /** Inputs that are permutations of each other have the same canonical form. */
  lemma OrderIrrelevant(resolve: Resolver, a: seq<Candidate>, b: seq<Candidate>, s: seq<Candidate>, t: seq<Candidate>)
    requires multiset(a) == multiset(b) && Canonical(resolve, a, s) && Canonical(resolve, b, t)
    ensures s == t
  {
    forall y
      ensures Given(resolve, a, y) <==> Given(resolve, b, y)
    {
      if Given(resolve, a, y) {
        GivenPermuted(resolve, a, b, y);
      }
      if Given(resolve, b, y) {
        GivenPermuted(resolve, b, a, y);
      }
    }
    forall x
      ensures x in s <==> x in t
    {
      assert Chosen(resolve, a, x) <==> Chosen(resolve, b, x);
    }
    SortedUnique(s, t);
  }

  /** One entry per endpoint. */
  lemma OnePerEndpoint(resolve: Resolver, input: seq<Candidate>, s: seq<Candidate>, i: nat, j: nat)
    requires Canonical(resolve, input, s) && i < j < |s|
    ensures !Same(resolve, s[i], s[j])
    ensures AllAcceptable(resolve, input) ==> s[i].port != s[j].port || resolve(s[i].addr) != resolve(s[j].addr)
  {
    assert s[i] in s && s[j] in s;
    NothingInvented(resolve, input, s, s[i]);
  }

  /** Every input has an entry for its endpoint, and the entry is not after it. */
  lemma NothingLost(resolve: Resolver, input: seq<Candidate>, s: seq<Candidate>, i: nat)
    requires Canonical(resolve, input, s) && AllAcceptable(resolve, input) && i < |input|
    ensures exists x :: x in s && x.port == input[i].port && resolve(x.addr) == resolve(input[i].addr)
                        && !Less(Ranked(resolve, input[i]), x)
  {
    GivenOne(resolve, input, i);
    var x := Least(resolve, input, Ranked(resolve, input[i]));
    assert x in s;
  }

  /** Every entry is an input, with its priority recomputed. */
  lemma NothingInvented(resolve: Resolver, input: seq<Candidate>, s: seq<Candidate>, x: Candidate)
    requires Canonical(resolve, input, s) && x in s
    ensures exists i :: 0 <= i < |input| && Ranked(resolve, input[i]) == x
  {
    assert Chosen(resolve, input, x);
  }

  lemma RankedAlready(resolve: Resolver, input: seq<Candidate>, s: seq<Candidate>, x: Candidate)
    requires Canonical(resolve, input, s)
    ensures Given(resolve, s, x) <==> x in s
  {
    forall k | 0 <= k < |s|
      ensures Ranked(resolve, s[k]) == s[k]
    {
      assert s[k] in s;
      NothingInvented(resolve, input, s, s[k]);
    }
    if x in s {
      var k :| 0 <= k < |s| && s[k] == x;
      assert Ranked(resolve, s[k]) == x;
    }
  }

  /** The canonical form of well-formed candidates is well-formed, and no longer than they are. */
  lemma {:induction false} CanonicalAcceptable(resolve: Resolver, input: seq<Candidate>, s: seq<Candidate>)
    requires Canonical(resolve, input, s) && AllAcceptable(resolve, input)
    ensures AllAcceptable(resolve, s) && |s| <= |input|
  {
    var from := seq(|input|, i requires 0 <= i < |input| => Ranked(resolve, input[i]));
    forall k | 0 <= k < |s|
      ensures Acceptable(resolve, s[k]) && s[k] in from
    {
      assert s[k] in s;
      NothingInvented(resolve, input, s, s[k]);
      var i :| 0 <= i < |input| && Ranked(resolve, input[i]) == s[k];
      assert from[i] == s[k];
    }
    DistinctCount(s, from);
  }

  /** A sorted list of members of another list is no longer than it. */
  lemma {:induction false} DistinctCount(s: seq<Candidate>, from: seq<Candidate>)
    requires Sorted(s) && forall k :: 0 <= k < |s| ==> s[k] in from
    ensures |s| <= |from|
  {
    if s != [] {
      var j :| 0 <= j < |from| && from[j] == s[0];
      var rest := from[..j] + from[j + 1..];
      forall k | 0 <= k < |s[1..]|
        ensures s[1..][k] in rest
      {
        LessTotal(s[0], s[0]);
        var i :| 0 <= i < |from| && from[i] == s[k + 1];
        assert rest[if i < j then i else i - 1] == s[k + 1];
      }
      SortedTail(s, s[0]);
      DistinctCount(s[1..], rest);
    }
  }

  /** Normalizing again succeeds and changes nothing. */
  lemma Idempotent(resolve: Resolver, input: seq<Candidate>, s: seq<Candidate>)
    requires Canonical(resolve, input, s)
    ensures Canonical(resolve, s, s)
    ensures AllAcceptable(resolve, input) ==> AllAcceptable(resolve, s) && |s| <= |input|
  {
    if AllAcceptable(resolve, input) {
      CanonicalAcceptable(resolve, input, s);
    }
    forall x
      ensures x in s <==> Chosen(resolve, s, x)
    {
      RankedAlready(resolve, input, s, x);
      if x in s {
        forall y | Given(resolve, s, y) && Same(resolve, x, y)
          ensures !Less(y, x)
        {
          RankedAlready(resolve, input, s, y);
          assert Chosen(resolve, input, x) && Chosen(resolve, input, y);
        }
      }
    }
  }

  // ----------------------------------------------------------- removing duplicates

  /** The entries kept after some of the inputs, not yet sorted. */
  ghost predicate Kept(resolve: Resolver, input: seq<Candidate>, out: seq<Candidate>) {
    && (forall i, j :: 0 <= i < j < |out| ==> !Same(resolve, out[i], out[j]))
    && (forall x :: x in out <==> Chosen(resolve, input, x))
  }

  /** What a further input does to the choice. */
  lemma ChosenSnoc(resolve: Resolver, input: seq<Candidate>, c: Candidate, x: Candidate)
    ensures var r := Ranked(resolve, c);
            Chosen(resolve, input + [c], x) <==>
            (Chosen(resolve, input, x) && !(Same(resolve, x, r) && Less(r, x))) ||
            (x == r && forall y :: Given(resolve, input, y) && Same(resolve, r, y) ==> !Less(y, r))
  {
    var r := Ranked(resolve, c);
    LessTotal(r, r);
    forall y
      ensures Given(resolve, input + [c], y) <==> Given(resolve, input, y) || y == r
    {
      GivenSnoc(resolve, input, c, y);
    }
  }

  /** No entry for the endpoint of `r`: then no input for it either. */
  lemma NoneBefore(resolve: Resolver, input: seq<Candidate>, out: seq<Candidate>, r: Candidate, y: Candidate)
    requires Kept(resolve, input, out) && AllAcceptable(resolve, input) && Given(resolve, input, y)
    requires forall j :: 0 <= j < |out| ==> !Same(resolve, out[j], r)
    ensures !Same(resolve, r, y)
  {
    var x := Least(resolve, input, y);
    assert x in out;
  }

  lemma Appended(resolve: Resolver, input: seq<Candidate>, c: Candidate, out: seq<Candidate>)
    requires Kept(resolve, input, out) && AllAcceptable(resolve, input)
    requires forall j :: 0 <= j < |out| ==> !Same(resolve, out[j], Ranked(resolve, c))
    ensures Kept(resolve, input + [c], out + [Ranked(resolve, c)])
  {
    var r := Ranked(resolve, c);
    forall y | Given(resolve, input, y)
      ensures !Same(resolve, r, y)
    {
      NoneBefore(resolve, input, out, r, y);
    }
    forall x
      ensures x in out + [r] <==> Chosen(resolve, input + [c], x)
    {
      ChosenSnoc(resolve, input, c, x);
    }
  }

  /** The entry at `j` is for the endpoint of `r` and is not after it. */
  lemma Unchanged(resolve: Resolver, input: seq<Candidate>, c: Candidate, out: seq<Candidate>, j: nat)
    requires Kept(resolve, input, out) && j < |out|
    requires Same(resolve, out[j], Ranked(resolve, c)) && !Less(Ranked(resolve, c), out[j])
    ensures Kept(resolve, input + [c], out)
  {
    var r := Ranked(resolve, c);
    assert out[j] in out;
    LessTotal(r, out[j]);
    forall x
      ensures x in out <==> Chosen(resolve, input + [c], x)
    {
      ChosenSnoc(resolve, input, c, x);
      if x in out && Same(resolve, x, r) {
        var k :| 0 <= k < |out| && out[k] == x;
        assert Same(resolve, out[k], out[j]) && Same(resolve, out[j], out[k]);
      }
    }
  }

  /** The entry at `j` gives way to `r`. */
  lemma Replaced(resolve: Resolver, input: seq<Candidate>, c: Candidate, out: seq<Candidate>, j: nat)
    requires Kept(resolve, input, out) && j < |out|
    requires Same(resolve, out[j], Ranked(resolve, c)) && Less(Ranked(resolve, c), out[j])
    ensures Kept(resolve, input + [c], out[j := Ranked(resolve, c)])
  {
    var r := Ranked(resolve, c);
    var next := out[j := r];
    assert out[j] in out;
    forall y | Given(resolve, input, y) && Same(resolve, r, y)
      ensures !Less(y, r)
    {
      if Less(y, r) {
        LessTransitive(y, r, out[j]);
      }
    }
    forall x
      ensures x in next <==> Chosen(resolve, input + [c], x)
    {
      ChosenSnoc(resolve, input, c, x);
      ReplacedMembers(resolve, out, j, r, x);
    }
  }

  lemma Apart(resolve: Resolver, out: seq<Candidate>, k: nat, j: nat)
    requires k < |out| && j < |out| && k != j
    requires forall i, k :: 0 <= i < k < |out| ==> !Same(resolve, out[i], out[k])
    ensures !Same(resolve, out[k], out[j])
  {
    if j < k {
      assert !Same(resolve, out[j], out[k]);
    }
  }

  lemma ReplacedMembers(resolve: Resolver, out: seq<Candidate>, j: nat, r: Candidate, x: Candidate)
    requires j < |out| && Same(resolve, out[j], r) && Less(r, out[j])
    requires forall i, k :: 0 <= i < k < |out| ==> !Same(resolve, out[i], out[k])
    ensures x in out[j := r] <==> x == r || (x in out && !(Same(resolve, x, r) && Less(r, x)))
  {
    var next := out[j := r];
    assert next[j] == r;
    if x in out && x != out[j] {
      var k :| 0 <= k < |out| && out[k] == x;
      assert next[k] == x;
      Apart(resolve, out, k, j);
    }
    if x in next && x != r {
      var k :| 0 <= k < |next| && next[k] == x;
      assert out[k] == x && k != j;
      Apart(resolve, out, k, j);
    }
  }

  /** `item` is compared with the entries kept so far: replaces one, gives way to one, or is new. */
  method Absorb(resolve: Resolver, a: array<Candidate>, n: nat, i: nat, ghost input: seq<Candidate>) returns (m: nat)
    requires n <= i < a.Length && i == |input|
    requires Kept(resolve, input, a[..n]) && AllAcceptable(resolve, input)
    modifies a
    ensures n <= m <= i + 1 && a[i + 1..] == old(a[i + 1..])
    ensures Kept(resolve, input + [old(a[i])], a[..m])
  {
    ghost var out, c := a[..n], a[i];
    var item := Ranked(resolve, a[i]);
    a[i] := item;
    assert a[..n] == out;
    m := n;
    var j := 0;
    while j < n
      invariant 0 <= j <= n && forall k :: 0 <= k < j ==> !Same(resolve, out[k], item)
    {
      if Same(resolve, a[j], item) {
        assert a[j] == out[j];
        if Less(item, a[j]) {
          Replaced(resolve, input, c, out, j);
          a[j] := item;
          assert a[..n] == out[j := item];
        } else {
          Unchanged(resolve, input, c, out, j);
        }
        return;
      }
      j := j + 1;
    }
    Appended(resolve, input, c, out);
    a[n] := item;
    assert a[..n + 1] == out + [item];
    m := n + 1;
  }

  lemma KeptNothing(resolve: Resolver)
    ensures Kept(resolve, [], [])
  {
  }

  lemma AcceptableNext(resolve: Resolver, input: seq<Candidate>, i: nat)
    requires i < |input| && AllAcceptable(resolve, input[..i])
    ensures if Acceptable(resolve, input[i]) then AllAcceptable(resolve, input[..i + 1])
            else !AllAcceptable(resolve, input)
  {
  }

  /** The first loop of `redp2p_normalize_candidates`. */
  method RemoveDuplicates(resolve: Resolver, a: array<Candidate>, count: nat) returns (ok: bool, n: nat)
    requires count <= a.Length
    modifies a
    ensures ok <==> AllAcceptable(resolve, old(a[..count]))
    ensures ok ==> n <= count && Kept(resolve, old(a[..count]), a[..n])
  {
    ghost var input := a[..count];
    n := 0;
    var i := 0;
    KeptNothing(resolve);
    assert input[..0] == [] && a[..0] == [];
    while i < count
      invariant 0 <= n <= i <= count && a[i..] == old(a[i..])
      invariant AllAcceptable(resolve, input[..i]) && Kept(resolve, input[..i], a[..n])
    {
      assert a[i] == a[i..][0] == input[i];
      AcceptableNext(resolve, input, i);
      if !Acceptable(resolve, a[i]) {
        return false, 0;
      }
      assert input[..i] + [input[i]] == input[..i + 1];
      n := Absorb(resolve, a, n, i, input[..i]);
      i := i + 1;
    }
    assert input[..i] == input;
    ok := true;
  }

  // ------------------------------------------------------------------- sorting

  /** Where an item goes in a sorted list: behind everything not greater. */
  function Insert(s: seq<Candidate>, item: Candidate): seq<Candidate> {
    if s != [] && Less(item, s[|s| - 1]) then Insert(s[..|s| - 1], item) + [s[|s| - 1]] else s + [item]
  }

  lemma {:induction false} InsertMembers(s: seq<Candidate>, item: Candidate, x: Candidate)
    ensures x in Insert(s, item) <==> x in s || x == item
  {
    if s != [] && Less(item, s[|s| - 1]) {
      InsertMembers(s[..|s| - 1], item, x);
      assert s == s[..|s| - 1] + [s[|s| - 1]];
    }
  }

  lemma {:induction false} InsertSorts(s: seq<Candidate>, item: Candidate)
    requires Sorted(s) && item !in s
    ensures Sorted(Insert(s, item))
  {
    if s == [] {
    } else if Less(item, s[|s| - 1]) {
      var front, last := s[..|s| - 1], s[|s| - 1];
      InsertSorts(front, item);
      var r := Insert(front, item);
      forall i | 0 <= i < |r|
        ensures Less(r[i], last)
      {
        InsertMembers(front, item, r[i]);
      }
    } else {
      LessTotal(item, s[|s| - 1]);
      forall i | 0 <= i < |s|
        ensures Less(s[i], item)
      {
        if i < |s| - 1 {
          LessTransitive(s[i], s[|s| - 1], item);
        }
      }
    }
  }

  /** The place where an item goes. */
  lemma {:induction false} InsertPlace(s: seq<Candidate>, item: Candidate, j: nat)
    requires j <= |s| && (j > 0 ==> !Less(item, s[j - 1])) && forall k :: j <= k < |s| ==> Less(item, s[k])
    ensures Insert(s, item) == s[..j] + [item] + s[j..]
    decreases |s|
  {
    if j < |s| {
      var front := s[..|s| - 1];
      InsertPlace(front, item, j);
      assert front[..j] == s[..j] && front[j..] + [s[|s| - 1]] == s[j..];
    } else {
      assert s[..j] == s && s[j..] == [];
    }
  }

  /** Moves the greater entries before `i` up by one: the freed place. */
  method Slide(a: array<Candidate>, i: nat, item: Candidate) returns (j: nat)
    requires i < a.Length
    modifies a
    ensures j <= i && (j > 0 ==> !Less(item, old(a[j - 1]))) && forall k :: j <= k < i ==> Less(item, old(a[k]))
    ensures forall k :: 0 <= k < j || i < k < a.Length ==> a[k] == old(a[k])
    ensures forall k :: j < k <= i ==> a[k] == old(a[k - 1])
  {
    j := i;
    while j > 0 && Less(item, a[j - 1])
      invariant 0 <= j <= i && forall k :: j <= k < i ==> Less(item, old(a[k]))
      invariant forall k :: 0 <= k < j || i < k < a.Length ==> a[k] == old(a[k])
      invariant forall k :: j < k <= i ==> a[k] == old(a[k - 1])
    {
      a[j] := a[j - 1];
      j := j - 1;
    }
  }

  /** The inner loop of the insertion sort. */
  method InsertAt(a: array<Candidate>, i: nat)
    requires i < a.Length
    modifies a
    ensures a[..i + 1] == Insert(old(a[..i]), old(a[i])) && a[i + 1..] == old(a[i + 1..])
  {
    var item := a[i];
    ghost var s := a[..i];
    var j := Slide(a, i, item);
    a[j] := item;
    InsertPlace(s, item, j);
    assert a[..i + 1] == s[..j] + [item] + s[j..];
  }

  /** `redp2p_normalize_candidates`: succeeds exactly on a list of at most 16 well-formed candidates, and then
      leaves its canonical form in front. */
  method Normalize(resolve: Resolver, a: array<Candidate>, count: int) returns (ok: bool, n: nat)
    requires count <= a.Length
    modifies a
    ensures ok <==> 0 <= count <= CANDIDATES_MAX && AllAcceptable(resolve, old(a[..count]))
    ensures ok ==> n <= count && Canonical(resolve, old(a[..count]), a[..n])
  {
    if count < 0 || count > CANDIDATES_MAX {
      return false, 0;
    }
    ok, n := RemoveDuplicates(resolve, a, count);
    if ok {
      Sort(resolve, a, n, old(a[..count]));
    }
  }

  lemma KeptDistinct(resolve: Resolver, input: seq<Candidate>, out: seq<Candidate>, i: nat)
    requires Kept(resolve, input, out) && AllAcceptable(resolve, input) && i < |out|
    ensures out[i] !in out[..i]
  {
    assert out[i] in out;
    GivenSame(resolve, input, out[i]);
  }

  ghost predicate SameMembers(s: seq<Candidate>, t: seq<Candidate>) {
    forall x :: x in s <==> x in t
  }

  lemma InsertNext(s: seq<Candidate>, out: seq<Candidate>, i: nat)
    requires i < |out| && SameMembers(s, out[..i])
    ensures SameMembers(Insert(s, out[i]), out[..i + 1])
  {
    assert out[..i + 1] == out[..i] + [out[i]];
    forall x
      ensures x in Insert(s, out[i]) <==> x in out[..i + 1]
    {
      InsertMembers(s, out[i], x);
    }
  }

  lemma SortedKept(resolve: Resolver, input: seq<Candidate>, out: seq<Candidate>, s: seq<Candidate>)
    requires Kept(resolve, input, out) && Sorted(s) && SameMembers(s, out)
    ensures Canonical(resolve, input, s)
  {
  }

  /** One round of the second loop. */
  method SortStep(a: array<Candidate>, n: nat, i: nat, ghost out: seq<Candidate>)
    requires i < n == |out| && n <= a.Length && out[i] !in out[..i]
    requires Sorted(a[..i]) && a[i..n] == out[i..] && SameMembers(a[..i], out[..i])
    modifies a
    ensures Sorted(a[..i + 1]) && a[i + 1..n] == out[i + 1..] && SameMembers(a[..i + 1], out[..i + 1])
  {
    assert a[i] == out[i];
    InsertSorts(a[..i], out[i]);
    InsertNext(a[..i], out, i);
    ghost var behind := a[i + 1..];
    assert behind[..n - i - 1] == out[i + 1..];
    InsertAt(a, i);
    assert a[i + 1..n] == behind[..n - i - 1];
  }

  /** The second loop. */
  method Sort(resolve: Resolver, a: array<Candidate>, n: nat, ghost input: seq<Candidate>)
    requires n <= a.Length && Kept(resolve, input, a[..n]) && AllAcceptable(resolve, input)
    modifies a
    ensures Canonical(resolve, input, a[..n])
  {
    if n == 0 {
      return;
    }
    ghost var out := a[..n];
    var i := 1;
    while i < n
      invariant 1 <= i <= n && Sorted(a[..i]) && a[i..n] == out[i..] && SameMembers(a[..i], out[..i])
    {
      KeptDistinct(resolve, input, out, i);
      SortStep(a, n, i, out);
      i := i + 1;
    }
    assert out[..i] == out;
    SortedKept(resolve, input, out, a[..n]);
  }
}
