/**
 The table of known header names and the search in it, which halves its upper bound
 and starts over when it has gone too far, forgetting its lower bound.
 */
module HeaderTable {
  import opened IndexArithmetic

  /** The sign of strcmp on strings without NUL. */
  function StrCmp(s: string, t: string): int {
    if s == [] && t == [] then 0
    else if s == [] then -1
    else if t == [] then 1
    else if s[0] != t[0] then (if s[0] < t[0] then -1 else 1)
    else StrCmp(s[1..], t[1..])
  }

  ghost predicate Sorted(table: seq<string>) {
    forall i, j :: 0 <= i < j < |table| ==> StrCmp(table[i], table[j]) < 0
  }

  lemma {:induction false} StrCmpZero(s: string, t: string)
    ensures StrCmp(s, t) == 0 <==> s == t
  {
    if s != [] && t != [] {
      StrCmpZero(s[1..], t[1..]);
      assert s == [s[0]] + s[1..] && t == [t[0]] + t[1..];
    }
  }

  lemma {:induction false} StrCmpTransitive(s: string, t: string, u: string)
    requires StrCmp(s, t) < 0 && StrCmp(t, u) < 0
    ensures StrCmp(s, u) < 0
  {
    if s != [] && t != [] && u != [] && s[0] == t[0] == u[0] {
      StrCmpTransitive(s[1..], t[1..], u[1..]);
    }
  }

  lemma {:induction false} StrCmpAntisymmetric(s: string, t: string)
    ensures StrCmp(s, t) < 0 <==> StrCmp(t, s) > 0
  {
    if s != [] && t != [] { StrCmpAntisymmetric(s[1..], t[1..]); }
  }

  // ---------- logarithms ----------

  /** The number of binary digits of n: floor(log2 n) + 1 for n > 0. */
  function Bits(n: nat): nat {
    if n == 0 then 0 else 1 + Bits(n / 2)
  }

  /** The smallest k with n <= 2^k. */
  function CeilLog2(n: nat): nat {
    if n <= 1 then 0 else 1 + CeilLog2((n + 1) / 2)
  }

  lemma {:induction false} BitsIsFloorLog2(n: nat)
    requires n > 0
    ensures Bits(n) > 0 && Pow2(Bits(n) - 1) <= n < Pow2(Bits(n))
  {
    if n > 1 { BitsIsFloorLog2(n / 2); }
  }

  lemma {:induction false} CeilLog2IsCeilLog2(n: nat)
    requires n > 0
    ensures n <= Pow2(CeilLog2(n)) && (n > 1 ==> Pow2(CeilLog2(n) - 1) < n)
  {
    if n > 2 { CeilLog2IsCeilLog2((n + 1) / 2); }
  }

  lemma {:induction false} BitsMonotone(m: nat, n: nat)
    requires m <= n
    ensures Bits(m) <= Bits(n)
  {
    if m > 0 { BitsMonotone(m / 2, n / 2); }
  }

  lemma {:induction false} CeilLog2Monotone(m: nat, n: nat)
    requires m <= n
    ensures CeilLog2(m) <= CeilLog2(n)
  {
    if m > 1 { CeilLog2Monotone((m + 1) / 2, (n + 1) / 2); }
  }

  // ---------- the search ----------

  /** What the search is for: the place of key in the table, or -1. */
  ghost predicate IsIndexOf(table: seq<string>, key: string, index: int) {
    if key in table then 0 <= index < |table| && table[index] == key else index == -1
  }

  lemma IndexIsUnique(table: seq<string>, key: string, i: int, j: int)
    requires Sorted(table) && IsIndexOf(table, key, i) && IsIndexOf(table, key, j)
    ensures i == j
  {
    StrCmpZero(key, key);
  }

  /** The same place, found by looking at one entry after the other. */
  function IndexOf(table: seq<string>, key: string): (index: int)
    ensures IsIndexOf(table, key, index)
  {
    if table == [] then -1
    else if table[|table| - 1] == key then |table| - 1
    else IndexOf(table[..|table| - 1], key)
  }

  /** The key can only be above lo and below length. */
  ghost predicate Bracketed(table: seq<string>, key: string, lo: int, length: int) {
    && -1 <= lo < length <= |table|
    && (forall k :: 0 <= k <= lo ==> StrCmp(table[k], key) < 0)
    && (forall k :: length <= k < |table| ==> StrCmp(table[k], key) > 0)
  }

  lemma BracketFromAbove(table: seq<string>, key: string, lo: int, length: int, i: nat)
    requires Sorted(table) && Bracketed(table, key, lo, length) && i < length && StrCmp(table[i], key) > 0
    ensures lo < i && Bracketed(table, key, lo, i)
  {
    hide StrCmp;
    StrCmpAntisymmetric(key, table[i]);
    forall k | i < k < |table| ensures StrCmp(table[k], key) > 0 {
      StrCmpTransitive(key, table[i], table[k]);
      StrCmpAntisymmetric(key, table[k]);
    }
  }

  lemma BracketFromBelow(table: seq<string>, key: string, lo: int, length: int, i: nat)
    requires Sorted(table) && Bracketed(table, key, lo, length) && i < length && StrCmp(table[i], key) < 0
    ensures Bracketed(table, key, if lo < i then i else lo, length)
  {
    hide StrCmp;
    forall k | 0 <= k < i ensures StrCmp(table[k], key) < 0 {
      StrCmpTransitive(table[k], table[i], key);
    }
  }

  lemma NothingBetween(table: seq<string>, key: string, lo: int)
    requires Bracketed(table, key, lo, lo + 1)
    ensures key !in table
  {
    hide StrCmp;
    forall k | 0 <= k < |table| ensures table[k] != key { StrCmpZero(table[k], key); }
  }

  /** Cost of a climb: the distance to length loses a binary digit. */
  lemma ClimbHalves(d: nat)
    requires d > 0
    ensures d - (d + 1) / 2 >= 0 && Bits(d - (d + 1) / 2) == Bits(d) - 1
  {
    assert d - (d + 1) / 2 == d / 2;
  }

  /** Cost of a restart: the gap to the largest index known to be too small at least
      halves, rounding up, so that one phase is used up. */
  lemma RestartHalves(gap: nat, gap': nat, phases: nat, digits: nat)
    requires gap >= 2 && gap' <= (gap + 1) / 2 && CeilLog2(gap) <= phases
    ensures phases > 0 && CeilLog2(gap') <= phases - 1
    ensures Budget(phases, digits) == Budget(phases - 1, digits) + digits
  {
    CeilLog2Monotone(gap', (gap + 1) / 2);
  }

  /** The comparisons that so many phases may take, each at most so many climbs. */
  function Budget(phases: nat, digits: nat): nat {
    phases * digits
  }

  lemma OnePhaseMore(phases: nat, digits: nat)
    ensures Budget(phases + 1, digits) == Budget(phases, digits) + digits
    ensures Budget(phases + 1, digits) == (phases + 1) * digits
  {
  }

  /** find_header_index on any sorted table: it finds the key exactly when it is
      there, in at most (ceil(log2(n + 1)) + 1) * (floor(log2 n) + 1) comparisons. */
  method FindHeaderIndex(table: seq<string>, key: string) returns (index: int, ghost comparisons: nat)
    requires Sorted(table)
    ensures IsIndexOf(table, key, index)
    ensures comparisons <= (CeilLog2(|table| + 1) + 1) * Bits(|table|)
  {
    hide StrCmp, Bits, CeilLog2, Sorted, Bracketed, Budget;
    var i, length := |table| / 2, |table|;
    ghost var n, lo, phases := |table|, -1, CeilLog2(|table| + 1);
    comparisons := 0;
    BitsMonotone(length - i, n);
    OnePhaseMore(phases, Bits(n));
    ghost var budget := Budget(phases + 1, Bits(n));
    NothingKnown(table, key);
    while i < length
      invariant 0 <= i <= length <= n && 2 * i <= length + lo + 1
      invariant -1 <= lo < length && Bracketed(table, key, lo, length)
      invariant i == length ==> lo == length - 1
      invariant CeilLog2(length - lo) <= phases
      invariant comparisons + Bits(length - i) + Budget(phases, Bits(n)) <= budget
      decreases length, length - i
    {
      var comparison := StrCmp(table[i], key);
      comparisons := comparisons + 1;
      StrCmpZero(table[i], key);
      ClimbHalves(length - i);
      if comparison == 0 {
        return i, comparisons;
      }
      if comparison < 0 {
        BracketFromBelow(table, key, lo, length, i);
        CeilLog2Monotone(length - (if lo < i then i else lo), length - lo);
        lo := if lo < i then i else lo;
        i := i + (length - i + 1) / 2;
      } else {
        BracketFromAbove(table, key, lo, length, i);
        RestartHalves(length - lo, i - lo, phases, Bits(n));
        length := i;
        i := i / 2;
        BitsMonotone(length - i, n);
        phases := phases - 1;
      }
    }
    NothingBetween(table, key, lo);
    index := -1;
  }

  lemma NothingKnown(table: seq<string>, key: string)
    ensures Bracketed(table, key, -1, |table|)
  {
  }

  // ---------- the table ----------

  function Names1(): seq<string> {
    [ "Accept", "Accept-Charset", "Accept-Encoding", "Accept-Language", "Accept-Ranges",
      "Access-Control-Allow-Credentials", "Access-Control-Allow-Headers", "Access-Control-Allow-Methods",
      "Access-Control-Allow-Origin" ]
  }

  function Names2(): seq<string> {
    [ "Access-Control-Expose-Headers", "Access-Control-Max-Age", "Access-Control-Request-Headers",
      "Access-Control-Request-Method", "Age", "Allow", "Authorization", "Cache-Control", "Connection" ]
  }

  function Names3(): seq<string> {
    [ "Content-Disposition", "Content-Encoding", "Content-Language", "Content-Length", "Content-Location",
      "Content-Range", "Content-Security-Policy", "Content-Security-Policy-Report-Only", "Content-Type" ]
  }

  function Names4(): seq<string> {
    [ "Cookie", "Cookie2", "DNT", "Date", "ETag", "Expect", "Expect-CT", "Expires", "Forwarded" ]
  }

  function Names5(): seq<string> {
    [ "From", "Host", "If-Match", "If-Modified-Since", "If-None-Match", "If-Range", "If-Unmodified-Since",
      "Keep-Alive", "Large-Allocation" ]
  }

  function Names6(): seq<string> {
    [ "Last-Modified", "Location", "Origin", "Pragma", "Proxy-Authenticate", "Proxy-Authorization",
      "Public-Key-Pins", "Public-Key-Pins-Report-Only", "Range" ]
  }

  function Names7(): seq<string> {
    [ "Referer", "Referrer-Policy", "Retry-After", "Server", "Server-Timing", "Set-Cookie", "Set-Cookie2",
      "SourceMap", "Strict-Transport-Security" ]
  }

  function Names8(): seq<string> {
    [ "TE", "Timing-Allow-Origin", "Tk", "Trailer", "Transfer-Encoding", "Upgrade-Insecure-Requests",
      "User-Agent", "Vary", "Via" ]
  }

  function Names9(): seq<string> {
    [ "WWW-Authenticate", "Warning", "X-Content-Type-Options", "X-DNS-Prefetch-Control", "X-Forwarded-For",
      "X-Forwarded-Host", "X-Forwarded-Proto", "X-Frame-Options", "X-XSS-Protection" ]
  }

  /** The 81 entries of HTTP_HEADER_STRINGS, in the order of the source. */
  function HeaderStrings(): seq<string> {
    Names1() + Names2() + Names3() + Names4() + Names5() + Names6() + Names7() + Names8() + Names9()
  }

  const CONTENT_LENGTH := 21

  /** s comes before t because they part after k common characters. */
  predicate PartsAt(s: string, t: string, k: nat) {
    && k <= |s| && k < |t| && (forall i :: 0 <= i < k ==> s[i] == t[i])
    && (k == |s| || s[k] < t[k])
  }

  lemma {:induction false} PartsMeansLess(s: string, t: string, k: nat)
    requires PartsAt(s, t, k)
    ensures StrCmp(s, t) < 0
  {
    if k > 0 { PartsMeansLess(s[1..], t[1..], k - 1); }
  }

  lemma {:induction false} OrderedApart(table: seq<string>, i: nat, j: nat)
    requires forall k :: 0 <= k < |table| - 1 ==> StrCmp(table[k], table[k + 1]) < 0
    requires i < j < |table|
    ensures StrCmp(table[i], table[j]) < 0
  {
    hide StrCmp;
    if i < j - 1 {
      OrderedApart(table, i, j - 1);
      StrCmpTransitive(table[i], table[j - 1], table[j]);
    }
  }

  /** A table is sorted when each entry parts from the next after parts[k] characters. */
  lemma SortedByParts(table: seq<string>, parts: seq<nat>)
    requires |table| == |parts| + 1
    requires forall k :: 0 <= k < |parts| ==> PartsAt(table[k], table[k + 1], parts[k])
    ensures Sorted(table)
  {
    hide StrCmp, PartsAt;
    forall k | 0 <= k < |table| - 1 ensures StrCmp(table[k], table[k + 1]) < 0 {
      PartsMeansLess(table[k], table[k + 1], parts[k]);
    }
    forall i, j | 0 <= i < j < |table| ensures StrCmp(table[i], table[j]) < 0 {
      OrderedApart(table, i, j);
    }
  }

  lemma SortedConcat(t: seq<string>, u: seq<string>, k: nat)
    requires Sorted(t) && Sorted(u) && t != [] && u != [] && PartsAt(t[|t| - 1], u[0], k)
    ensures Sorted(t + u)
  {
    hide StrCmp, PartsAt;
    PartsMeansLess(t[|t| - 1], u[0], k);
    forall i, j | 0 <= i < |t| && 0 <= j < |u| ensures StrCmp(t[i], u[j]) < 0 {
      if i < |t| - 1 { StrCmpTransitive(t[i], t[|t| - 1], u[0]); }
      if j > 0 { StrCmpTransitive(t[i], u[0], u[j]); }
    }
  }

  lemma SortedNames1()
    ensures Sorted(Names1())
  {
    hide StrCmp, Sorted;
    SortedByParts(Names1(), [6, 7, 7, 7, 4, 21, 21, 21]);
  }

  lemma SortedNames2()
    ensures Sorted(Names2())
  {
    hide StrCmp, Sorted;
    SortedByParts(Names2(), [15, 15, 23, 1, 1, 1, 0, 1]);
  }

  lemma SortedNames3()
    ensures Sorted(Names3())
  {
    hide StrCmp, Sorted;
    SortedByParts(Names3(), [8, 8, 9, 9, 8, 8, 23, 8]);
  }

  lemma SortedNames4()
    ensures Sorted(Names4())
  {
    hide StrCmp, Sorted;
    SortedByParts(Names4(), [6, 0, 1, 0, 1, 6, 3, 0]);
  }

  lemma SortedNames5()
    ensures Sorted(Names5())
  {
    hide StrCmp, Sorted;
    SortedByParts(Names5(), [0, 0, 4, 3, 3, 3, 0, 0]);
  }

  lemma SortedNames6()
    ensures Sorted(Names6())
  {
    hide StrCmp, Sorted;
    SortedByParts(Names6(), [1, 0, 0, 2, 10, 1, 15, 0]);
  }

  lemma SortedNames7()
    ensures Sorted(Names7())
  {
    hide StrCmp, Sorted;
    SortedByParts(Names7(), [5, 2, 0, 6, 2, 10, 1, 1]);
  }

  lemma SortedNames8()
    ensures Sorted(Names8())
  {
    hide StrCmp, Sorted;
    SortedByParts(Names8(), [1, 1, 1, 3, 0, 1, 0, 1]);
  }

  lemma SortedNames9()
    ensures Sorted(Names9())
  {
    hide StrCmp, Sorted;
    SortedByParts(Names9(), [1, 0, 2, 2, 12, 12, 3, 2]);
  }

  /** The table in the source is sorted, so the search is right on it. */
  lemma HeaderTableIsSorted()
    ensures |HeaderStrings()| == 81 && Sorted(HeaderStrings())
    ensures HeaderStrings()[CONTENT_LENGTH] == "Content-Length"
  {
    hide StrCmp, Sorted;
    SortedNames1(); SortedNames2(); SortedNames3(); SortedNames4(); SortedNames5();
    SortedNames6(); SortedNames7(); SortedNames8(); SortedNames9();
    SortedConcat(Names1(), Names2(), 15);
    SortedConcat(Names1() + Names2(), Names3(), 3);
    SortedConcat(Names1() + Names2() + Names3(), Names4(), 2);
    SortedConcat(Names1() + Names2() + Names3() + Names4(), Names5(), 1);
    SortedConcat(Names1() + Names2() + Names3() + Names4() + Names5(), Names6(), 2);
    SortedConcat(Names1() + Names2() + Names3() + Names4() + Names5() + Names6(), Names7(), 1);
    SortedConcat(Names1() + Names2() + Names3() + Names4() + Names5() + Names6() + Names7(), Names8(), 0);
    SortedConcat(Names1() + Names2() + Names3() + Names4() + Names5() + Names6() + Names7() + Names8(), Names9(), 0);
  }

  /** In the table of the source, name i is found at i and nowhere else. */
  lemma KnownIndex(name: string, i: nat)
    requires i < |HeaderStrings()|
    ensures HeaderStrings()[i] == name <==> IndexOf(HeaderStrings(), name) == i
  {
    hide HeaderStrings, IndexOf, Sorted;
    HeaderTableIsSorted();
    if HeaderStrings()[i] == name {
      IndexIsUnique(HeaderStrings(), name, i, IndexOf(HeaderStrings(), name));
    }
  }
}
