/** The search for a location name that no location has yet (src/BackupLocationsPanel.cc). */
module FreshName {
  import opened Common

  const DIGITS := "0123456789"

  /** `n` as "%d" prints it. */
  function Decimal(n: nat): (s: string)
    ensures s != ""
  {
    if n < 10 then [DIGITS[n]] else Decimal(n / 10) + [DIGITS[n % 10]]
  }

  function DigitValue(c: char): nat {
    if '0' <= c <= '9' then (c - '0') as nat else 0
  }

  function Value(s: string): nat {
    if s == "" then 0 else 10 * Value(s[..|s| - 1]) + DigitValue(s[|s| - 1])
  }

  lemma {:induction false} DecimalValue(n: nat)
    ensures Value(Decimal(n)) == n
  {
    if n >= 10 {
      DecimalValue(n / 10);
      var s := Decimal(n);
      assert s[..|s| - 1] == Decimal(n / 10);
    } else {
      assert Decimal(n)[..0] == "";
    }
  }

  /** The digits, and one more of them behind the others. */
  lemma DecimalText(n: nat)
    ensures n < 10 ==> Decimal(n) == ["0123456789"[n]]
    ensures n >= 10 ==> Decimal(n) == Decimal(n / 10) + Decimal(n % 10)
  {
  }

  /** The name tried in round `k`. */
  function Candidate(stem: string, k: nat): string {
    if k > 0 then stem + "_" + Decimal(k)
    else if stem == "" then "root" else stem
  }

  lemma CandidatesDiffer(stem: string, j: nat, k: nat)
    requires j != k
    ensures Candidate(stem, j) != Candidate(stem, k)
  {
    if j > 0 && k > 0 {
      var a, b := Candidate(stem, j), Candidate(stem, k);
      assert a[|stem| + 1..] == Decimal(j) && b[|stem| + 1..] == Decimal(k);
      DecimalValue(j);
      DecimalValue(k);
    } else if j > 0 || k > 0 {
      var n := if j > 0 then j else k;
      assert |Candidate(stem, n)| > |stem|;
      if stem == "" {
        assert Candidate(stem, n)[0] == '_' && "root"[0] == 'r';
      }
    }
  }

  function Elements(names: seq<string>): set<string> {
    set n | n in names
  }

  ghost predicate AllTaken(names: seq<string>, stem: string, k: nat) {
    forall j :: 0 <= j < k ==> Candidate(stem, j) in names
  }

  lemma {:induction false} ElementsBound(names: seq<string>)
    ensures |Elements(names)| <= |names|
  {
    if names != [] {
      ElementsBound(names[1..]);
      assert Elements(names) == {names[0]} + Elements(names[1..]);
    }
  }

  lemma {:induction false} FirstCandidates(names: seq<string>, stem: string, k: nat) returns (tried: set<string>)
    requires AllTaken(names, stem, k)
    ensures |tried| == k && tried <= Elements(names)
    ensures forall n :: n in tried ==> exists j :: 0 <= j < k && n == Candidate(stem, j)
  {
    tried := {};
    if k > 0 {
      tried := FirstCandidates(names, stem, k - 1);
      forall n | n in tried
        ensures n != Candidate(stem, k - 1)
      {
        var j :| 0 <= j < k - 1 && n == Candidate(stem, j);
        CandidatesDiffer(stem, j, k - 1);
      }
      tried := tried + {Candidate(stem, k - 1)};
    }
  }

  /** No more candidates can be taken than there are names. */
  lemma Pigeonhole(names: seq<string>, stem: string, k: nat)
    requires AllTaken(names, stem, k)
    ensures k <= |names|
  {
    var tried := FirstCandidates(names, stem, k);
    SubsetSize(tried, Elements(names));
    ElementsBound(names);
  }

  /** The first round, from round `k` on, whose candidate is free. */
  function FirstFree(names: seq<string>, stem: string, k: nat): (r: nat)
    requires AllTaken(names, stem, k)
    ensures k <= r <= |names|
    ensures AllTaken(names, stem, r) && Candidate(stem, r) !in names
    decreases |names| + 1 - k
  {
    Pigeonhole(names, stem, k);
    if Candidate(stem, k) !in names then k
    else
      Pigeonhole(names, stem, k + 1);
      FirstFree(names, stem, k + 1)
  }

  function Fresh(names: seq<string>, stem: string): string {
    Candidate(stem, FirstFree(names, stem, 0))
  }

  lemma NoneBefore(names: seq<string>, stem: string)
    ensures AllTaken(names, stem, 0)
  {
  }

  lemma OneMoreTaken(names: seq<string>, stem: string, k: nat)
    requires AllTaken(names, stem, k) && Candidate(stem, k) in names
    ensures AllTaken(names, stem, k + 1)
  {
  }

  lemma FreshIs(names: seq<string>, stem: string, k: nat)
    requires AllTaken(names, stem, k) && Candidate(stem, k) !in names
    ensures Fresh(names, stem) == Candidate(stem, k)
  {
    var r := FirstFree(names, stem, 0);
    assert r == k;
  }

  lemma TakenNames(names: seq<string>, stem: string, k: nat)
    requires AllTaken(names, stem, k)
    ensures k > 0 ==> (if stem == "" then "root" else stem) in names
    ensures forall j :: 1 <= j < k ==> stem + "_" + Decimal(j) in names
    ensures Candidate(stem, k) == if k > 0 then stem + "_" + Decimal(k) else if stem == "" then "root" else stem
  {
    assert k > 0 ==> Candidate(stem, 0) in names;
    forall j | 1 <= j < k
      ensures stem + "_" + Decimal(j) in names
    {
      assert Candidate(stem, j) in names;
    }
  }

  /** Try names until one is free: the loop ends after at most one round more than there are names. */
  method FindFreshName(names: seq<string>, stem: string) returns (name: string, rounds: nat)
    ensures name == Fresh(names, stem) && name !in names
    ensures 1 <= rounds <= |names| + 1
    ensures name == if rounds > 1 then stem + "_" + Decimal(rounds - 1) else if stem == "" then "root" else stem
    ensures rounds > 1 ==> (if stem == "" then "root" else stem) in names
    ensures forall k :: 1 <= k < rounds - 1 ==> stem + "_" + Decimal(k) in names
  {
    hide Fresh, AllTaken, Decimal;
    assert AllTaken(names, stem, 0) by { NoneBefore(names, stem); }
    name := if stem == "" then "root" else stem;
    var counter := 1;
    rounds := 0;
    while true
      invariant counter == rounds + 1 && name == Candidate(stem, rounds)
      invariant AllTaken(names, stem, rounds) && rounds <= |names|
      decreases |names| + 1 - rounds
    {
      var found := true;
      var i := 0;
      while i < |names| && found
        invariant 0 <= i <= |names|
        invariant found ==> name !in names[..i]
        invariant !found ==> name in names
      {
        if names[i] == name {
          found := false;
        }
        i := i + 1;
      }
      if found {
        assert names[..i] == names;
        TakenNames(names, stem, rounds);
        FreshIs(names, stem, rounds);
        rounds := rounds + 1;
        return;
      }
      OneMoreTaken(names, stem, rounds);
      Pigeonhole(names, stem, rounds + 1);
      name := stem + "_" + Decimal(counter);
      counter := counter + 1;
      rounds := rounds + 1;
    }
  }
}
