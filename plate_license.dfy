// The plate licence registry: an ordered list of licence records plus the
// set of their codes, kept in step, and the generator that draws random
// codes until it finds an unused one.

module Registry {
  import opened PlateCode
  import CodeSpace

  datatype Option<T> = None | Some(value: T)

  /** The only status the registry ever assigns. */
  const REGISTERED: string := "REGISTERED"

  /** One registered plate: its code, its registration time in milliseconds
      since the epoch, and its status. */
  datatype Record = Record(license: string, registered: int, status: string)

  /** The record every new registry starts with. */
  const SEED: Record := Record("6LZD666", 1622953087393, REGISTERED)

  /** The codes of a sequence of records. */
  function Codes(rs: seq<Record>): set<string> {
    if rs == [] then {} else Codes(rs[..|rs| - 1]) + {rs[|rs| - 1].license}
  }

  /** No two records share a code. */
  predicate Distinct(rs: seq<Record>) {
    forall i, j :: 0 <= i < j < |rs| ==> rs[i].license != rs[j].license
  }

  lemma CodesAppend(rs: seq<Record>, r: Record)
    ensures Codes(rs + [r]) == Codes(rs) + {r.license}
  {
    assert (rs + [r])[..|rs|] == rs;
  }

  /** A code is in Codes(rs) exactly when some record of rs carries it. */
  lemma {:induction false} CodesMember(rs: seq<Record>, x: string)
    ensures x in Codes(rs) <==> exists i :: 0 <= i < |rs| && rs[i].license == x
  {
    if rs != [] {
      var n := |rs| - 1;
      CodesMember(rs[..n], x);
      if x in Codes(rs[..n]) {
        var i :| 0 <= i < n && rs[..n][i].license == x;
        assert rs[i].license == x;
      } else if x != rs[n].license {
        forall i | 0 <= i < |rs| ensures rs[i].license != x {
          if i < n {
            assert rs[..n][i] == rs[i];
          }
        }
      }
    }
  }

  /** The codes of two sequences of records laid end to end. */
  lemma {:induction false} CodesConcat(a: seq<Record>, b: seq<Record>)
    ensures Codes(a + b) == Codes(a) + Codes(b)
  {
    if b == [] {
      assert a + b == a;
    } else {
      var n := |b| - 1;
      assert (a + b)[..|a| + n] == a + b[..n];
      assert (a + b)[|a| + n] == b[n];
      CodesConcat(a, b[..n]);
    }
  }

  /** There are never more codes than records. */
  lemma {:induction false} CodesSize(rs: seq<Record>)
    ensures |Codes(rs)| <= |rs|
  {
    if rs != [] {
      CodesSize(rs[..|rs| - 1]);
    }
  }

  /** With no shared codes, there are as many codes as records. */
  lemma {:induction false} DistinctCodesSize(rs: seq<Record>)
    requires Distinct(rs)
    ensures |Codes(rs)| == |rs|
  {
    if rs != [] {
      var n := |rs| - 1;
      assert Distinct(rs[..n]);
      DistinctCodesSize(rs[..n]);
      CodesMember(rs[..n], rs[n].license);
    }
  }

  /** With as many codes as records, no code is shared. */
  lemma {:induction false} CodesSizeDistinct(rs: seq<Record>)
    requires |Codes(rs)| == |rs|
    ensures Distinct(rs)
  {
    if rs != [] {
      var n := |rs| - 1;
      var init := rs[..n];
      CodesSize(init);
      assert rs[n].license !in Codes(init);
      CodesSizeDistinct(init);
      CodesMember(init, rs[n].license);
      forall i, j | 0 <= i < j < |rs| ensures rs[i].license != rs[j].license {
        assert init[i] == rs[i];
        if j < n {
          assert init[j] == rs[j];
        }
      }
    }
  }

  /** No code is shared exactly when there are as many codes as records. */
  lemma DistinctIffCodesSize(rs: seq<Record>)
    ensures Distinct(rs) <==> |Codes(rs)| == |rs|
  {
    if Distinct(rs) {
      DistinctCodesSize(rs);
    }
    if |Codes(rs)| == |rs| {
      CodesSizeDistinct(rs);
    }
  }

  /** The registration times of a sequence of records, in order. */
  function Stamps(rs: seq<Record>): (ts: seq<int>)
    ensures |ts| == |rs|
  {
    if rs == [] then [] else Stamps(rs[..|rs| - 1]) + [rs[|rs| - 1].registered]
  }

  /** The i-th stamp is the registration time of the i-th record. */
  lemma {:induction false} StampsAt(rs: seq<Record>, i: nat)
    requires i < |rs|
    ensures Stamps(rs)[i] == rs[i].registered
  {
    if i < |rs| - 1 {
      StampsAt(rs[..|rs| - 1], i);
    }
  }

  lemma StampsAppend(rs: seq<Record>, r: Record)
    ensures Stamps(rs + [r]) == Stamps(rs) + [r.registered]
  {
    assert (rs + [r])[..|rs|] == rs;
  }

  /** The codes of a sequence of records, in order. */
  function LicensesOf(rs: seq<Record>): (ls: seq<string>)
    ensures |ls| == |rs|
  {
    if rs == [] then [] else LicensesOf(rs[..|rs| - 1]) + [rs[|rs| - 1].license]
  }

  /** The i-th code is the `license` field of the i-th record. */
  lemma {:induction false} LicensesOfAt(rs: seq<Record>, i: nat)
    requires i < |rs|
    ensures LicensesOf(rs)[i] == rs[i].license
  {
    if i < |rs| - 1 {
      LicensesOfAt(rs[..|rs| - 1], i);
    }
  }

  lemma LicensesOfAppend(rs: seq<Record>, r: Record)
    ensures LicensesOf(rs + [r]) == LicensesOf(rs) + [r.license]
  {
    assert (rs + [r])[..|rs|] == rs;
  }

  /** Records with valid codes and status REGISTERED. */
  predicate AllRegistered(rs: seq<Record>) {
    forall i :: 0 <= i < |rs| ==> ValidCode(rs[i].license) && rs[i].status == REGISTERED
  }

  /** The records appended after a prefix share no code with each other or
      with the prefix, and keep the prefix's per-record guarantees. */
  lemma AppendedRecords(a: seq<Record>, b: seq<Record>)
    requires Distinct(a + b) && AllRegistered(a + b)
    ensures Distinct(b) && AllRegistered(b)
    ensures Codes(a) !! Codes(b)
  {
    assert forall i :: 0 <= i < |b| ==> (a + b)[|a| + i] == b[i];
    forall x | x in Codes(a) ensures x !in Codes(b) {
      CodesMember(a, x);
      CodesMember(b, x);
      var i :| 0 <= i < |a| && a[i].license == x;
      assert (a + b)[i] == a[i];
    }
  }

  /** Appending a record whose code is valid and not yet taken keeps the
      registry invariant: the set grows by exactly that code, no code is
      shared, and every record stays valid and REGISTERED. */
  lemma RegisterFresh(rs: seq<Record>, codes: set<string>, r: Record)
    requires codes == Codes(rs) && Distinct(rs) && AllRegistered(rs)
    requires r.license !in codes && ValidCode(r.license) && r.status == REGISTERED
    ensures codes + {r.license} == Codes(rs + [r])
    ensures Distinct(rs + [r]) && AllRegistered(rs + [r])
  {
    CodesAppend(rs, r);
    CodesMember(rs, r.license);
  }

  lemma AppendAssoc<T>(a: seq<T>, b: seq<T>, c: seq<T>)
    ensures (a + b) + c == a + (b + c)
  {
  }

  lemma AppendNil<T>(a: seq<T>, b: seq<T>)
    requires b == []
    ensures a + b == a
  {
  }

  lemma TakeSnoc<T>(s: seq<T>, k: nat)
    requires k < |s|
    ensures s[..k + 1] == s[..k] + [s[k]]
  {
  }

  /** A stream of draws, each the seven random indices of one candidate. */
  predicate AllValid(draws: seq<seq<nat>>) {
    forall i :: 0 <= i < |draws| ==> ValidDraw(draws[i])
  }

  /** The candidate codes a stream of draws yields, one per draw, in order. */
  function Candidates(draws: seq<seq<nat>>): (cs: seq<string>)
    requires AllValid(draws)
    ensures |cs| == |draws|
  {
    if draws == [] then []
    else [BuildLicenseNumber(draws[0])] + Candidates(draws[1..])
  }

  /** The i-th candidate is the code built from the i-th draw. */
  lemma {:induction false} CandidateAt(draws: seq<seq<nat>>, i: nat)
    requires AllValid(draws) && i < |draws|
    ensures Candidates(draws)[i] == BuildLicenseNumber(draws[i])
  {
    if i > 0 {
      CandidateAt(draws[1..], i - 1);
    }
  }

  lemma {:induction false} CandidatesSuffix(draws: seq<seq<nat>>, k: nat)
    requires AllValid(draws) && k <= |draws|
    ensures AllValid(draws[k..]) && Candidates(draws[k..]) == Candidates(draws)[k..]
  {
    assert forall i :: 0 <= i < |draws| - k ==> draws[k..][i] == draws[k + i];
    if k > 0 {
      var tail := draws[1..];
      assert forall i :: 0 <= i < |tail| ==> tail[i] == draws[i + 1];
      CandidatesSuffix(tail, k - 1);
      assert tail[k - 1..] == draws[k..];
      assert Candidates(draws) == [BuildLicenseNumber(draws[0])] + Candidates(tail);
    }
  }

  /** Builds the candidate code of the i-th draw of the stream. */
  method BuildCandidate(draws: seq<seq<nat>>, i: nat) returns (s: string)
    requires AllValid(draws) && i < |draws|
    ensures s == Candidates(draws)[i]
    ensures ValidCode(s)
  {
    s := BuildLicenseNumber(draws[i]);
    CandidateAt(draws, i);
    BuildIsValid(draws[i]);
  }

  /** The index of the first candidate not in use: the candidate the
      generator's retry loop settles on, if any. */
  function FirstFresh(used: set<string>, cs: seq<string>): (r: Option<nat>)
    ensures r.Some? ==> r.value < |cs| && cs[r.value] !in used
  {
    if cs == [] then None
    else if cs[0] !in used then Some(0)
    else match FirstFresh(used, cs[1..]) {
      case None => None
      case Some(k) => Some(k + 1)
    }
  }

  /** FirstFresh finds k exactly when the k-th candidate is unused and every
      earlier one is in use. */
  lemma {:induction false} FirstFreshIsFirst(used: set<string>, cs: seq<string>, k: nat)
    ensures FirstFresh(used, cs) == Some(k) <==>
            (k < |cs| && cs[k] !in used && forall j :: 0 <= j < k ==> cs[j] in used)
  {
    if cs != [] && k > 0 {
      FirstFreshIsFirst(used, cs[1..], k - 1);
      assert forall j :: 0 <= j < |cs| - 1 ==> cs[1..][j] == cs[j + 1];
      if k < |cs| && cs[k] !in used && forall j :: 0 <= j < k ==> cs[j] in used {
        assert cs[0] in used;
        assert forall j :: 0 <= j < k - 1 ==> cs[1..][j] in used;
      }
    }
  }

  /** FirstFresh finds nothing exactly when every candidate is in use. */
  lemma {:induction false} FirstFreshNone(used: set<string>, cs: seq<string>)
    ensures FirstFresh(used, cs) == None <==> forall j :: 0 <= j < |cs| ==> cs[j] in used
  {
    if cs != [] {
      FirstFreshNone(used, cs[1..]);
      assert forall j :: 0 <= j < |cs| - 1 ==> cs[1..][j] == cs[j + 1];
      if forall j :: 0 <= j < |cs| ==> cs[j] in used {
        assert forall j :: 0 <= j < |cs| - 1 ==> cs[1..][j] in used;
      }
    }
  }

  /** A candidate stream that lets n generations in a row each find an unused code. */
  predicate Suffices(used: set<string>, cs: seq<string>, n: int)
    decreases if n > 0 then n else 0
  {
    n <= 0 ||
    (FirstFresh(used, cs).Some? &&
     var k := FirstFresh(used, cs).value;
     Suffices(used + {cs[k]}, cs[k + 1..], n - 1))
  }

  lemma SufficesPrepend(used: set<string>, c: string, cs: seq<string>, n: int)
    requires c !in used && n > 0 && Suffices(used + {c}, cs, n - 1)
    ensures Suffices(used, [c] + cs, n)
  {
    assert FirstFresh(used, [c] + cs) == Some(0);
    assert ([c] + cs)[1..] == cs;
  }

  lemma CandidatesCons(d: seq<nat>, rest: seq<seq<nat>>)
    requires ValidDraw(d) && AllValid(rest)
    ensures AllValid([d] + rest)
    ensures Candidates([d] + rest) == [BuildLicenseNumber(d)] + Candidates(rest)
  {
    assert ([d] + rest)[1..] == rest;
  }

  /** A draw of a fresh code c in front of a stream that suffices for n - 1
      generations after c is taken gives a stream that suffices for n. */
  lemma PrependDraw(used: set<string>, c: string, rest: seq<seq<nat>>, n: int)
    returns (draws: seq<seq<nat>>)
    requires ValidCode(c) && c !in used && n > 0
    requires AllValid(rest) && Suffices(used + {c}, Candidates(rest), n - 1)
    ensures AllValid(draws) && Suffices(used, Candidates(draws), n)
  {
    EveryCodeIsDrawable(c);
    var d :| ValidDraw(d) && BuildLicenseNumber(d) == c;
    draws := [d] + rest;
    CandidatesCons(d, rest);
    SufficesPrepend(used, c, Candidates(rest), n);
  }

  /** The codes that n generations in a row take from a candidate stream,
      in order: each the first candidate not yet in use. They are pairwise
      distinct and none was in use before. */
  function Taken(used: set<string>, cs: seq<string>, n: int): (ts: seq<string>)
    requires Suffices(used, cs, n)
    ensures |ts| == if n > 0 then n else 0
    ensures forall i :: 0 <= i < |ts| ==> ts[i] !in used
    ensures forall i, j :: 0 <= i < j < |ts| ==> ts[i] != ts[j]
    decreases if n > 0 then n else 0
  {
    if n <= 0 then []
    else
      var k := FirstFresh(used, cs).value;
      var rest := Taken(used + {cs[k]}, cs[k + 1..], n - 1);
      var ts := [cs[k]] + rest;
      assert forall i :: 0 < i < |ts| ==> ts[i] == rest[i - 1];
      ts
  }

  /** One generation takes the first fresh candidate, and the rest of the
      stream suffices for the later generations, which take their codes
      from it. */
  lemma TakenStep(used: set<string>, cs: seq<string>, n: int, u: nat)
    requires n >= 0 && Suffices(used, cs, n + 1)
    requires FirstFresh(used, cs).Some? && u == FirstFresh(used, cs).value + 1
    ensures u <= |cs| && Suffices(used + {cs[u - 1]}, cs[u..], n)
    ensures Taken(used, cs, n + 1) == [cs[u - 1]] + Taken(used + {cs[u - 1]}, cs[u..], n)
  {
  }

  /** The same step, for a stream of draws: the draws after the one consumed
      are well formed and suffice for the later generations. */
  lemma TakenAfterGeneration(used: set<string>, draws: seq<seq<nat>>, n: int, u: nat)
    requires AllValid(draws) && n >= 0 && Suffices(used, Candidates(draws), n + 1)
    requires FirstFresh(used, Candidates(draws)).Some?
    requires u == FirstFresh(used, Candidates(draws)).value + 1
    ensures u <= |draws| && AllValid(draws[u..])
    ensures Suffices(used + {Candidates(draws)[u - 1]}, Candidates(draws[u..]), n)
    ensures Taken(used, Candidates(draws), n + 1) ==
            [Candidates(draws)[u - 1]] + Taken(used + {Candidates(draws)[u - 1]}, Candidates(draws[u..]), n)
  {
    TakenStep(used, Candidates(draws), n, u);
    CandidatesSuffix(draws, u);
  }

  /** Pushing the next generated record onto a batch: the stamps follow the
      clock one further, and its code is the next one the stream yields. */
  lemma BatchStep(before: seq<Record>, batch: seq<Record>, rec: Record, clock: seq<int>,
                  taken: seq<string>, rest: seq<string>)
    requires |batch| < |clock| && rec.registered == clock[|batch|]
    requires Stamps(batch) == clock[..|batch|]
    requires LicensesOf(batch) + ([rec.license] + rest) == taken
    ensures Stamps(batch + [rec]) == clock[..|batch + [rec]|]
    ensures LicensesOf(batch + [rec]) + rest == taken
    ensures (before + batch) + [rec] == before + (batch + [rec])
  {
    StampsAppend(batch, rec);
    LicensesOfAppend(batch, rec);
    AppendAssoc(LicensesOf(batch), [rec.license], rest);
    TakeSnoc(clock, |batch|);
    AppendAssoc(before, batch, [rec]);
  }

  /** While fewer than 175,760,000 codes are taken after n more generations,
      there is a stream of draws that lets all n succeed. */
  lemma {:induction false} SufficientDraws(used: set<string>, n: nat)
    returns (draws: seq<seq<nat>>)
    requires |used| + n <= CodeSpace.CODE_SPACE
    ensures AllValid(draws) && Suffices(used, Candidates(draws), n)
    decreases n
  {
    if n == 0 {
      draws := [];
    } else {
      CodeSpace.UnusedCodeExists(used);
      var c :| ValidCode(c) && c !in used;
      var rest := SufficientDraws(used + {c}, n - 1);
      draws := PrependDraw(used, c, rest, n);
    }
  }

  class PlateLicense {
    /** Every record, in registration order. */
    var licenses: seq<Record>
    /** The codes of the records, for membership checks. */
    var licenseSet: set<string>

    /** The set holds exactly the records' codes, no code is recorded twice,
        and every record has a valid code and status REGISTERED. */
    ghost predicate Valid()
      reads this
    {
      licenseSet == Codes(licenses) && Distinct(licenses) && AllRegistered(licenses)
    }

    constructor ()
      ensures Valid()
      ensures licenses == [SEED] && licenseSet == {SEED.license}
    {
      licenses := [SEED];
      licenseSet := {};
      licenseSet := licenseSet + {SEED.license};
      assert [SEED][..0] == [];
    }

    /** All records, in registration order; there are as many as registered codes. */
    function GetAllLicenses(): (rs: seq<Record>)
      reads this
      ensures rs == licenses
      ensures Valid() ==> |rs| == |licenseSet|
    {
      DistinctIffCodesSize(licenses);
      licenses
    }

    /** Whether a code is registered: a set lookup that, under the invariant,
        agrees with a scan of the records. */
    function HasLicenseNumber(license: string): (b: bool)
      reads this
      ensures b <==> license in licenseSet
      ensures Valid() ==> (b <==> exists i :: 0 <= i < |licenses| && licenses[i].license == license)
    {
      CodesMember(licenses, license);
      license in licenseSet
    }

    /** Draws candidates from the stream until one is not registered, registers
        it with timestamp `now` and returns its record, together with the
        number of draws consumed. */
    method GenerateNewLicense(draws: seq<seq<nat>>, now: int) returns (rec: Record, used: nat)
      requires Valid()
      requires AllValid(draws)
      requires FirstFresh(licenseSet, Candidates(draws)).Some?
      modifies this
      ensures Valid()
      ensures used == FirstFresh(old(licenseSet), Candidates(draws)).value + 1
      ensures rec == Record(Candidates(draws)[used - 1], now, REGISTERED)
      ensures ValidCode(rec.license) && rec.license !in old(licenseSet)
      ensures licenses == old(licenses) + [rec]
      ensures licenseSet == old(licenseSet) + {rec.license}
    {
      ghost var cs := Candidates(draws);
      ghost var records, codes := licenses, licenseSet;
      ghost var k := FirstFresh(licenseSet, cs).value;
      FirstFreshIsFirst(licenseSet, cs, k);
      var licenseNumber := BuildCandidate(draws, 0);
      used := 1;
      while HasLicenseNumber(licenseNumber)
        invariant 1 <= used <= k + 1
        invariant licenseNumber == cs[used - 1] && ValidCode(licenseNumber)
        invariant licenseSet == codes && licenses == records
        decreases k + 1 - used
      {
        licenseNumber := BuildCandidate(draws, used);
        used := used + 1;
      }
      assert used == k + 1;
      rec := Record(licenseNumber, now, REGISTERED);
      RegisterFresh(licenses, licenseSet, rec);
      licenseSet := licenseSet + {licenseNumber};
      licenses := licenses + [rec];
    }

    /** One pass of the batch loop: generates the next licence, stamped with
        the next clock value, and pushes its record onto the batch. The stamps
        keep following the clock, the codes keep following the ones the
        stream yields, and what is left of the stream suffices for the
        remaining generations. */
    method PushNextLicense(batch: seq<Record>, stream: seq<seq<nat>>, remaining: nat,
                           clock: seq<int>, ghost before: seq<Record>, ghost taken: seq<string>)
      returns (next: seq<Record>, rest: seq<seq<nat>>)
      requires Valid() && AllValid(stream)
      requires Suffices(licenseSet, Candidates(stream), remaining + 1)
      requires |batch| < |clock| && licenses == before + batch
      requires Stamps(batch) == clock[..|batch|]
      requires LicensesOf(batch) + Taken(licenseSet, Candidates(stream), remaining + 1) == taken
      modifies this
      ensures Valid() && AllValid(rest)
      ensures Suffices(licenseSet, Candidates(rest), remaining)
      ensures |next| == |batch| + 1 && licenses == before + next
      ensures Stamps(next) == clock[..|next|]
      ensures LicensesOf(next) + Taken(licenseSet, Candidates(rest), remaining) == taken
    {
      ghost var codes := licenseSet;
      var rec, u := GenerateNewLicense(stream, clock[|batch|]);
      TakenAfterGeneration(codes, stream, remaining, u);
      BatchStep(before, batch, rec, clock, taken, Taken(licenseSet, Candidates(stream[u..]), remaining));
      next := batch + [rec];
      rest := stream[u..];
    }

    /** Generates n licences one after another, each with the next timestamp
        of `clock`, and returns their records in order. */
    method BatchGenerateLicenses(n: int, draws: seq<seq<nat>>, clock: seq<int>)
      returns (batch: seq<Record>)
      requires Valid()
      requires AllValid(draws)
      requires n <= |clock|
      requires Suffices(licenseSet, Candidates(draws), n)
      modifies this
      ensures Valid()
      ensures |batch| == if n > 0 then n else 0
      ensures licenses == old(licenses) + batch
      ensures licenseSet == old(licenseSet) + Codes(batch)
      ensures Distinct(batch) && Codes(batch) !! old(licenseSet)
      ensures Stamps(batch) == clock[..|batch|]
      ensures LicensesOf(batch) == Taken(old(licenseSet), Candidates(draws), n)
      ensures AllRegistered(batch)
    {
      ghost var before, codes := licenses, licenseSet;
      ghost var taken := Taken(licenseSet, Candidates(draws), n);
      batch := [];
      var remaining := n;
      var stream := draws;
      while remaining > 0
        invariant Valid()
        invariant |batch| == (if n > 0 then n else 0) - (if remaining > 0 then remaining else 0)
        invariant AllValid(stream)
        invariant licenses == before + batch
        invariant Suffices(licenseSet, Candidates(stream), remaining)
        invariant Stamps(batch) == clock[..|batch|]
        invariant LicensesOf(batch) + Taken(licenseSet, Candidates(stream), remaining) == taken
      {
        remaining := remaining - 1;
        batch, stream := PushNextLicense(batch, stream, remaining, clock, before, taken);
      }
      AppendNil(LicensesOf(batch), Taken(licenseSet, Candidates(stream), remaining));
      CodesConcat(before, batch);
      AppendedRecords(before, batch);
    }
  }
}
