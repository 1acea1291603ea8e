/** Which OSAC cluster version a requested Kubernetes version selects. */
module VersionSelection {
  import opened Basics
  import opened SemVer

  datatype Candidate = Candidate(id: string, name: string, version: string)

  datatype Resolution = Found(id: string, name: string) | Unavailable | CatalogError

  /** What the semver library makes of a version string, if anything. */
  type Parse = string -> Option<Version>

  /** The candidate is named, parseable, and equals the request or extends it by a dot. */
  predicate Eligible(c: Candidate, requested: string, parse: Parse) {
    (c.version == requested || requested + "." <= c.version) && c.name != "" && parse(c.version).Some?
  }

  /** Which version strings serve a request: "4.16" and "4.16.3" serve "4.16", "4.160" does not. */
  lemma EligibleVersions(c: Candidate, requested: string, parse: Parse)
    ensures Eligible(c, requested, parse) <==>
            && c.name != "" && parse(c.version).Some?
            && |requested| <= |c.version| && c.version[..|requested|] == requested
            && (|c.version| == |requested| || c.version[|requested|] == '.')
  {
    if |requested| < |c.version| && c.version[..|requested|] == requested && c.version[|requested|] == '.' {
      assert requested + "." == c.version[..|requested| + 1];
    }
    if requested + "." <= c.version {
      assert c.version[|requested|] == (requested + ".")[|requested|];
    }
  }

  /** `c` is not worse than `d`: its version is not below that of `d`, and if neither is below the other its name does
      not come after that of `d`. */
  ghost predicate NotWorse(c: Candidate, d: Candidate, parse: Parse)
    requires parse(c.version).Some? && parse(d.version).Some?
  {
    var v, w := parse(c.version).value, parse(d.version).value;
    !Below(v, w) && (!Below(w, v) ==> !StringBelow(d.name, c.name))
  }

  /** The same as the code compares. */
  lemma NotWorseByComparing(c: Candidate, d: Candidate, parse: Parse)
    requires parse(c.version).Some? && parse(d.version).Some?
    ensures var order := Compare(parse(d.version).value, parse(c.version).value);
            NotWorse(c, d, parse) <==> order == Less || (order == Equal && CompareStrings(c.name, d.name) != Greater)
  {
    var v, w := parse(c.version).value, parse(d.version).value;
    CompareIsPrecedence(v, w);
    CompareIsAntisymmetric(v, w);
    StringsByFirstDifference(d.name, c.name);
    StringsOrder(c.name, d.name);
  }

  ghost predicate IsBest(catalog: seq<Candidate>, requested: string, parse: Parse, c: Candidate) {
    && c in catalog && Eligible(c, requested, parse)
    && forall d :: d in catalog && Eligible(d, requested, parse) ==> NotWorse(c, d, parse)
  }

  lemma NotWorseIsTransitive(a: Candidate, b: Candidate, c: Candidate, parse: Parse)
    requires parse(a.version).Some? && parse(b.version).Some? && parse(c.version).Some?
    requires NotWorse(a, b, parse) && NotWorse(b, c, parse)
    ensures NotWorse(a, c, parse)
  {
    var va, vb, vc := parse(a.version).value, parse(b.version).value, parse(c.version).value;
    NotWorseByComparing(a, b, parse);
    NotWorseByComparing(b, c, parse);
    NotWorseByComparing(a, c, parse);
    CompareIsTransitive(vc, vb, va);
    if Compare(vc, va) == Equal {
      StringsTransitive(a.name, b.name, c.name);
    }
  }

  lemma NotWorseIsTotal(a: Candidate, b: Candidate, parse: Parse)
    requires parse(a.version).Some? && parse(b.version).Some?
    ensures NotWorse(a, b, parse) || NotWorse(b, a, parse)
    ensures NotWorse(a, b, parse) && NotWorse(b, a, parse) ==> a.name == b.name
    ensures NotWorse(a, a, parse)
  {
    NotWorseByComparing(a, b, parse);
    NotWorseByComparing(b, a, parse);
    NotWorseByComparing(a, a, parse);
    CompareIsAntisymmetric(parse(a.version).value, parse(b.version).value);
    CompareIsAntisymmetric(parse(a.version).value, parse(a.version).value);
    StringsOrder(a.name, b.name);
    StringsOrder(a.name, a.name);
  }

  /** No eligible candidate has a larger major, minor and patch, in this order. */
  ghost predicate IsNewest(catalog: seq<Candidate>, requested: string, parse: Parse, c: Candidate) {
    && Eligible(c, requested, parse)
    && forall d :: d in catalog && Eligible(d, requested, parse) ==>
         var v, w := parse(c.version).value, parse(d.version).value;
         || w.major < v.major
         || (w.major == v.major && w.minor < v.minor)
         || (w.major == v.major && w.minor == v.minor && w.patch <= v.patch)
  }

  lemma BestIsNewest(catalog: seq<Candidate>, requested: string, parse: Parse, c: Candidate)
    requires IsBest(catalog, requested, parse, c)
    ensures IsNewest(catalog, requested, parse, c)
  {
    forall d | d in catalog && Eligible(d, requested, parse) ensures NotWorse(c, d, parse) {
    }
  }

  /** One more candidate: the better of two remains best. */
  lemma NextCandidate(before: seq<Candidate>, c: Candidate, requested: string, parse: Parse, best: Candidate,
                      next: Candidate)
    requires IsBest(before, requested, parse, best)
    requires Eligible(c, requested, parse)
    requires next == best || next == c
    requires NotWorse(next, best, parse) && NotWorse(next, c, parse)
    ensures IsBest(before + [c], requested, parse, next)
  {
    forall d | d in before + [c] && Eligible(d, requested, parse) ensures NotWorse(next, d, parse) {
      if d in before {
        NotWorseIsTransitive(next, best, d, parse);
      }
    }
  }

  /** It fails exactly when nothing is eligible, and otherwise returns a best candidate. */
  ghost predicate IsResolution(catalog: seq<Candidate>, requested: string, parse: Parse, r: Resolution) {
    && !r.CatalogError?
    && (r.Unavailable? <==> forall c :: c in catalog ==> !Eligible(c, requested, parse))
    && (r.Found? ==> exists c :: IsBest(catalog, requested, parse, c) && r == Found(c.id, c.name))
  }

  /** resolveVersion, with its loop over the catalog. */
  method ResolveVersion(catalog: Option<seq<Candidate>>, requested: string, parse: Parse) returns (r: Resolution)
    ensures r.CatalogError? <==> catalog.None?
    ensures catalog.Some? ==> IsResolution(catalog.value, requested, parse, r)
    ensures r.Found? ==> exists c :: c in catalog.value && r == Found(c.id, c.name)
                                     && IsNewest(catalog.value, requested, parse, c)
  {
    if catalog.None? {
      return CatalogError;
    }
    var selected: Option<Candidate> := None;
    for i := 0 to |catalog.value|
      invariant selected.None? ==> forall c :: c in catalog.value[..i] ==> !Eligible(c, requested, parse)
      invariant selected.Some? ==> IsBest(catalog.value[..i], requested, parse, selected.value)
    {
      var c := catalog.value[i];
      assert catalog.value[..i + 1] == catalog.value[..i] + [c];
      if c.version != requested && !(requested + "." <= c.version) {
        continue;
      }
      if c.name == "" {
        continue;
      }
      var parsed := parse(c.version);
      if parsed.None? {
        continue;
      }
      NotWorseIsTotal(c, c, parse);
      if selected.None? {
        selected := Some(c);
      } else {
        var current := parse(selected.value.version).value;
        CompareIsAntisymmetric(parsed.value, current);
        NotWorseIsTotal(selected.value, c, parse);
        NotWorseIsTotal(selected.value, selected.value, parse);
        NotWorseByComparing(c, selected.value, parse);
        NotWorseByComparing(selected.value, c, parse);
        StringsOrder(c.name, selected.value.name);
        if Compare(parsed.value, current) == Greater
           || (Compare(parsed.value, current) == Equal && CompareStrings(c.name, selected.value.name) == Less) {
          NextCandidate(catalog.value[..i], c, requested, parse, selected.value, c);
          selected := Some(c);
        } else {
          NextCandidate(catalog.value[..i], c, requested, parse, selected.value, selected.value);
        }
      }
    }
    assert catalog.value[..|catalog.value|] == catalog.value;
    r := match selected case Some(c) => Found(c.id, c.name) case None => Unavailable;
    if selected.Some? {
      BestIsNewest(catalog.value, requested, parse, selected.value);
    }
  }

  ghost predicate DistinctNames(catalog: seq<Candidate>) {
    forall c, d :: c in catalog && d in catalog && c.name == d.name ==> c == d
  }

  /** The choice does not depend on the order of the catalog: two listings of the same candidates agree on
      whether there is a choice and on its name and precedence, and, if names are distinct, on the whole candidate. */
  lemma ChoiceIsOrderFree(catalog: seq<Candidate>, shuffled: seq<Candidate>, requested: string, parse: Parse,
                          c: Candidate, d: Candidate)
    requires multiset(catalog) == multiset(shuffled)
    requires IsBest(catalog, requested, parse, c) && IsBest(shuffled, requested, parse, d)
    ensures c.name == d.name && Compare(parse(c.version).value, parse(d.version).value) == Equal
    ensures DistinctNames(catalog) ==> c == d
  {
    assert c in multiset(catalog) && d in multiset(shuffled);
    assert NotWorse(c, d, parse) && NotWorse(d, c, parse);
    NotWorseIsTotal(c, d, parse);
    CompareIsPrecedence(parse(c.version).value, parse(d.version).value);
  }

  /** The same, for what is returned. */
  lemma ResolutionIsOrderFree(catalog: seq<Candidate>, shuffled: seq<Candidate>, requested: string, parse: Parse,
                              r: Resolution, s: Resolution)
    requires multiset(catalog) == multiset(shuffled)
    requires IsResolution(catalog, requested, parse, r) && IsResolution(shuffled, requested, parse, s)
    ensures r.Found? <==> s.Found?
    ensures r.Found? ==> r.name == s.name && (DistinctNames(catalog) ==> r == s)
  {
    if r.Found? {
      var c :| IsBest(catalog, requested, parse, c) && r == Found(c.id, c.name);
      assert c in multiset(shuffled);
      assert s.Found?;
    }
    if s.Found? {
      var d :| IsBest(shuffled, requested, parse, d) && s == Found(d.id, d.name);
      assert d in multiset(catalog);
      assert r.Found?;
      var c :| IsBest(catalog, requested, parse, c) && r == Found(c.id, c.name);
      ChoiceIsOrderFree(catalog, shuffled, requested, parse, c, d);
    }
  }
}
