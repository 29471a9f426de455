/** IRI-to-CURIE conversion of builder/chemotext.py (OXOdise_term): an identifier such
    as http://purl.obolibrary.org/obo/OMIM_603903 becomes OMIM:603903. */
module Chemotext {

  /** Python's str.startswith */
  predicate StartsWith(s: string, prefix: string) {
    |prefix| <= |s| && s[..|prefix|] == prefix
  }

  /** Python's str.count for a single character. */
  function Count(s: string, c: char): nat {
    if s == [] then 0 else (if s[0] == c then 1 else 0) + Count(s[1..], c)
  }

  /** Python's sep.join(parts) for a one-character separator. */
  function Join(sep: char, parts: seq<string>): string
    requires parts != []
  {
    if |parts| == 1 then parts[0] else parts[0] + [sep] + Join(sep, parts[1..])
  }

  /** Python's s.split(sep) for a one-character separator: the pieces between the
      separators, none of which contains it, and which the separator joins back into s. */
  function Split(s: string, sep: char): (parts: seq<string>)
    ensures |parts| == Count(s, sep) + 1
    ensures Join(sep, parts) == s
    ensures forall k :: 0 <= k < |parts| ==> sep !in parts[k]
  {
    if s == [] then [""]
    else if s[0] == sep then [""] + Split(s[1..], sep)
    else
      var rest := Split(s[1..], sep);
      [[s[0]] + rest[0]] + rest[1..]
  }

  function LastSegment(s: string): (r: string)
    ensures '/' !in r
  {
    var parts := Split(s, '/');
    parts[|parts| - 1]
  }

  /** OXOdise_term (the warning it logs is not modelled). */
  function OXOdiseTerm(term: string): string {
    if !StartsWith(term, "http") then term
    else
      var iriTerm := LastSegment(term);
      if Count(iriTerm, '_') != 1 then term
      else Join(':', Split(iriTerm, '_'))
  }

  /** The string with every '_' replaced by ':'. */
  function ReplaceUnderscores(s: string): (r: string)
    ensures |r| == |s|
  {
    seq(|s|, k requires 0 <= k < |s| => if s[k] == '_' then ':' else s[k])
  }

  lemma {:induction false} CountZero(s: string, c: char)
    ensures Count(s, c) == 0 <==> c !in s
  {
    if s != [] {
      CountZero(s[1..], c);
      assert s == [s[0]] + s[1..];
    }
  }

  lemma {:induction false} CountAppend(a: string, b: string, c: char)
    ensures Count(a + b, c) == Count(a, c) + Count(b, c)
  {
    if a != [] {
      assert (a + b)[1..] == a[1..] + b;
      CountAppend(a[1..], b, c);
    } else {
      assert a + b == b;
    }
  }

  /** A string with exactly one separator splits into the text before and after it. */
  lemma SplitInTwo(s: string, sep: char)
    requires Count(s, sep) == 1
    ensures var parts := Split(s, sep);
      |parts| == 2 && s == parts[0] + [sep] + parts[1] && Join(':', parts) == parts[0] + [':'] + parts[1]
  {
    var parts := Split(s, sep);
    assert parts[1..] == [parts[1]];
  }

  /** A string without the separator splits into itself alone. */
  lemma SplitWithoutSeparator(s: string, sep: char)
    requires sep !in s
    ensures Split(s, sep) == [s]
  {
    CountZero(s, sep);
  }

  /** The three cases of the conversion: anything not starting with "http" and any
      last segment without exactly one '_' is returned as given; otherwise the result
      is the last '/'-separated segment with its single '_' replaced by ':'. */
  lemma OXOdiseTermCases(term: string)
    ensures !StartsWith(term, "http") ==> OXOdiseTerm(term) == term
    ensures StartsWith(term, "http") && Count(LastSegment(term), '_') != 1 ==> OXOdiseTerm(term) == term
    ensures StartsWith(term, "http") && Count(LastSegment(term), '_') == 1 ==>
      OXOdiseTerm(term) == ReplaceUnderscores(LastSegment(term))
  {
    var iri := LastSegment(term);
    if StartsWith(term, "http") && Count(iri, '_') == 1 {
      var parts := Split(iri, '_');
      SplitInTwo(iri, '_');
      var r := OXOdiseTerm(term);
      forall k | 0 <= k < |iri|
        ensures r[k] == ReplaceUnderscores(iri)[k]
      {
        if k < |parts[0]| {
          assert iri[k] == parts[0][k];
        } else if k > |parts[0]| {
          assert iri[k] == parts[1][k - |parts[0]| - 1];
        }
      }
    }
  }

  /** A converted term is a CURIE: no '/', no '_', and as long as the last segment. */
  lemma OXOdiseTermConverted(term: string)
    requires OXOdiseTerm(term) != term
    ensures var r := OXOdiseTerm(term);
      '/' !in r && '_' !in r && |r| == |LastSegment(term)|
  {
    OXOdiseTermCases(term);
    var iri := LastSegment(term);
    SplitInTwo(iri, '_');
  }

  /** Converting an already converted term changes nothing. */
  lemma OXOdiseTermIdempotent(term: string)
    ensures OXOdiseTerm(OXOdiseTerm(term)) == OXOdiseTerm(term)
  {
    var r := OXOdiseTerm(term);
    if r != term {
      OXOdiseTermConverted(term);
      SplitWithoutSeparator(r, '/');
      assert LastSegment(r) == r;
      CountZero(r, '_');
    }
  }

  /** The last segment of a + "/" + b is b when b has no '/'. */
  lemma LastSegmentAfter(a: string, b: string)
    requires '/' !in b
    ensures LastSegment(a + ['/'] + b) == b
  {
    SplitWithoutSeparator(b, '/');
    SplitTail(a, b, '/');
  }

  /** a + "_" + b, with no '_' in a or b, is converted to a + ":" + b. */
  lemma JoinPair(a: string, b: string)
    requires '_' !in a && '_' !in b
    ensures Count(a + ['_'] + b, '_') == 1
    ensures Join(':', Split(a + ['_'] + b, '_')) == a + [':'] + b
  {
    CountZero(a, '_');
    CountZero(b, '_');
    CountAppend(a, ['_'] + b, '_');
    CountAppend(['_'], b, '_');
    assert a + ['_'] + b == a + (['_'] + b);
    assert Count(['_'], '_') == 1 by {
      assert ['_'][1..] == [];
    }
    var s := a + ['_'] + b;
    SplitInTwo(s, '_');
    SplitHead(a, b, '_');
    var parts := Split(s, '_');
    assert |parts[0]| == |a|;
    assert parts[1] == s[|a| + 1..];
    assert s[|a| + 1..] == b;
  }

  /** The example of the docstring, for any "http..." location in front of the last
      segment (such as http://purl.obolibrary.org/obo): .../OMIM_603903 becomes OMIM:603903. */
  lemma OXOdiseTermExample(location: string)
    requires StartsWith(location, "http")
    ensures OXOdiseTerm(location + "/OMIM_603903") == "OMIM:603903"
  {
    var term := location + "/OMIM_603903";
    var prefix, local := "OMIM", "603903";
    var iri := prefix + ['_'] + local;
    assert term == location + ['/'] + iri;
    assert term[..4] == location[..4];
    LastSegmentAfter(location, iri);
    JoinPair(prefix, local);
    assert OXOdiseTerm(term) == Join(':', Split(iri, '_'));
    assert prefix + [':'] + local == "OMIM:603903";
  }

  /** The last piece of a + [sep] + b is the last piece of b. */
  lemma {:induction false} SplitTail(a: string, b: string, sep: char)
    ensures var p, q := Split(a + [sep] + b, sep), Split(b, sep); p[|p| - 1] == q[|q| - 1]
  {
    if a != [] {
      assert (a + [sep] + b)[1..] == a[1..] + [sep] + b;
      SplitTail(a[1..], b, sep);
    } else {
      assert a + [sep] + b == [sep] + b;
      assert ([sep] + b)[1..] == b;
    }
  }

  /** The first piece of a + [sep] + b is a when a has no separator. */
  lemma {:induction false} SplitHead(a: string, b: string, sep: char)
    requires sep !in a
    ensures Split(a + [sep] + b, sep)[0] == a
  {
    if a != [] {
      assert (a + [sep] + b)[1..] == a[1..] + [sep] + b;
      SplitHead(a[1..], b, sep);
    } else {
      assert ([sep] + b)[1..] == b;
    }
  }
}
