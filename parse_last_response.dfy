/** The snapshot inspector: it takes the job postings parsed from a saved
    results page, normalises the configured search keywords and keeps the
    postings whose title matches a keyword and that do not look automated.

    The page parser and the `looks_automated` heuristic live in a module
    that is not part of this model; both are parameters here. */
module ParseLastResponse {
  import opened Text

  datatype Option<T> = None | Some(value: T)

  /** A parsed job posting. `title` is `None` both when the posting has no
      `title` field and when that field is `None`; `fields` holds the other
      fields the parser produced. */
  datatype Job = Job(title: Option<string>, fields: map<string, string>)

  /** `j.get('title') or ''`: the title when there is one, and the empty
      string for a missing, `None` or empty title. */
  function TitleText(j: Job): (t: string)
    ensures t == "" <==> j.title == None || j.title == Some("")
    ensures j.title.Some? ==> t == j.title.value
  {
    match j.title
    case None => ""
    case Some(t) => t
  }

  // ---------------------------------------------------------------------
  // Keyword normalisation
  // ---------------------------------------------------------------------

  /** A keyword entry the normalisation drops: empty or whitespace only. */
  predicate IsBlank(k: string): (b: bool)
    ensures b <==> AllSpace(k)
  {
    StripSpec(k);
    Strip(k) == []
  }

  /** What a normalised keyword looks like: non-empty, no whitespace at
      either end, no upper-case letter. */
  predicate IsKey(k: string)
  {
    k != [] && NoEdgeSpace(k) && NoUpper(k)
  }

  /** `k.strip().lower()`. */
  function NormalizeKey(k: string): (key: string)
    ensures key == [] <==> IsBlank(k)
    ensures NoEdgeSpace(key) && NoUpper(key)
  {
    StripSpec(k);
    LowerSpec(Strip(k));
    LowerKeepsNoEdgeSpace(Strip(k));
    Lower(Strip(k))
  }

  /** `[k.strip().lower() for k in keywords if k.strip()]`. */
  function NormalizeKeys(keywords: seq<string>): (keys: seq<string>)
    ensures |keys| <= |keywords|
    ensures forall i :: 0 <= i < |keys| ==> IsKey(keys[i])
  {
    if keywords == [] then []
    else NormalizeEntry(keywords[0]) + NormalizeKeys(keywords[1..])
  }

  /** What one keyword entry contributes to the normalised keys. */
  function NormalizeEntry(k: string): (keys: seq<string>)
    ensures |keys| <= 1
    ensures forall i :: 0 <= i < |keys| ==> IsKey(keys[i])
  {
    if IsBlank(k) then [] else [NormalizeKey(k)]
  }

  /** Normalisation works entry by entry and keeps the entries' order. */
  lemma {:induction false} NormalizeKeysAppend(a: seq<string>, b: seq<string>)
    ensures NormalizeKeys(a + b) == NormalizeKeys(a) + NormalizeKeys(b)
  {
    if a == [] {
      assert a + b == b;
    } else {
      var c := a + b;
      assert c[0] == a[0] && c[1..] == a[1..] + b;
      assert NormalizeKeys(c) == NormalizeEntry(a[0]) + NormalizeKeys(a[1..] + b);
      NormalizeKeysAppend(a[1..], b);
    }
  }

  /** A key comes out of normalisation exactly when some non-blank entry
      normalises to it. */
  lemma {:induction false} NormalizeKeysMembership(keywords: seq<string>, key: string)
    ensures key in NormalizeKeys(keywords)
        <==> exists i :: 0 <= i < |keywords| && !IsBlank(keywords[i]) && key == NormalizeKey(keywords[i])
  {
    if keywords != [] {
      NormalizeKeysMembership(keywords[1..], key);
      if key in NormalizeKeys(keywords[1..]) {
        var i :| 0 <= i < |keywords[1..]| && !IsBlank(keywords[1..][i]) && key == NormalizeKey(keywords[1..][i]);
        assert keywords[i + 1] == keywords[1..][i];
      }
      if exists i :: 0 <= i < |keywords| && !IsBlank(keywords[i]) && key == NormalizeKey(keywords[i]) {
        var i :| 0 <= i < |keywords| && !IsBlank(keywords[i]) && key == NormalizeKey(keywords[i]);
        if i > 0 {
          assert keywords[1..][i - 1] == keywords[i];
        }
      }
    }
  }

  /** The positions of the elements of `s` that satisfy `p`. */
  ghost function Positions<T>(s: seq<T>, p: T -> bool): set<nat>
  {
    set i: nat | i < |s| && p(s[i])
  }

  /** Appending one element adds its position exactly when it satisfies `p`. */
  lemma PositionsSnoc<T>(s: seq<T>, x: T, p: T -> bool)
    ensures |Positions(s + [x], p)| == |Positions(s, p)| + (if p(x) then 1 else 0)
  {
    var n := |s|;
    var q: set<nat> := if p(x) then {n} else {};
    forall i: nat ensures i in Positions(s + [x], p) <==> i in Positions(s, p) + q {
      if i < n {
        assert (s + [x])[i] == s[i];
      }
    }
    assert Positions(s + [x], p) == Positions(s, p) + q;
    assert n !in Positions(s, p);
  }

  /** Normalisation drops exactly the blank entries: it yields one key per
      non-blank entry. */
  lemma {:induction false} NormalizeKeysCount(keywords: seq<string>)
    ensures |NormalizeKeys(keywords)| == |Positions(keywords, k => !IsBlank(k))|
    decreases |keywords|
  {
    if keywords == [] {
      assert Positions(keywords, k => !IsBlank(k)) == {};
    } else {
      var n := |keywords| - 1;
      var front := keywords[..n];
      var last := keywords[n];
      assert keywords == front + [last];
      assert [last][1..] == [];
      NormalizeKeysAppend(front, [last]);
      NormalizeKeysCount(front);
      PositionsSnoc(front, last, k => !IsBlank(k));
    }
  }

  /** Normalisation yields no key at all exactly when every entry is blank. */
  lemma {:induction false} NormalizeKeysEmpty(keywords: seq<string>)
    ensures NormalizeKeys(keywords) == [] <==> forall i :: 0 <= i < |keywords| ==> IsBlank(keywords[i])
  {
    if keywords != [] {
      NormalizeKeysEmpty(keywords[1..]);
      if forall i :: 0 <= i < |keywords| ==> IsBlank(keywords[i]) {
        assert forall i :: 0 <= i < |keywords[1..]| ==> IsBlank(keywords[1..][i]) by {
          forall i | 0 <= i < |keywords[1..]| ensures IsBlank(keywords[1..][i]) {
            assert keywords[1..][i] == keywords[i + 1];
          }
        }
      } else if IsBlank(keywords[0]) {
        var i :| 0 <= i < |keywords| && !IsBlank(keywords[i]);
        assert keywords[1..][i - 1] == keywords[i];
      }
    }
  }

  // ---------------------------------------------------------------------
  // The keep condition and the filter
  // ---------------------------------------------------------------------

  /** `any(k in title for k in keys)`. */
  function AnyOccurs(keys: seq<string>, title: string): (b: bool)
    ensures b <==> exists i :: 0 <= i < |keys| && Occurs(keys[i], title)
  {
    if keys == [] then false
    else if Occurs(keys[0], title) then true
    else
      var b := AnyOccurs(keys[1..], title);
      assert forall i :: 1 <= i < |keys| ==> keys[i] == keys[1..][i - 1];
      b
  }

  /** A posting is kept when its lower-cased title contains one of the keys
      and the heuristic does not call it automated. */
  predicate Keep(j: Job, keys: seq<string>, automated: Job -> bool): (b: bool)
    ensures b <==> (exists k :: k in keys && Occurs(k, Lower(TitleText(j)))) && !automated(j)
  {
    var title := Lower(TitleText(j));
    assert AnyOccurs(keys, title) ==> exists k :: k in keys && Occurs(k, title) by {
      if AnyOccurs(keys, title) {
        var i :| 0 <= i < |keys| && Occurs(keys[i], title);
        assert keys[i] in keys;
      }
    }
    AnyOccurs(keys, title) && !automated(j)
  }

  /** The keep condition for fixed keys and heuristic, as a function value. */
  function KeepWith(keys: seq<string>, automated: Job -> bool): (keep: Job -> bool)
  {
    j => Keep(j, keys, automated)
  }

  /** The postings that satisfy `keep`, in their original order. */
  function Filter(jobs: seq<Job>, keep: Job -> bool): (kept: seq<Job>)
    ensures |kept| <= |jobs|
    ensures forall i :: 0 <= i < |kept| ==> keep(kept[i])
  {
    if jobs == [] then []
    else (if keep(jobs[0]) then [jobs[0]] else []) + Filter(jobs[1..], keep)
  }

  /** Filtering works posting by posting. */
  lemma {:induction false} FilterAppend(a: seq<Job>, b: seq<Job>, keep: Job -> bool)
    ensures Filter(a + b, keep) == Filter(a, keep) + Filter(b, keep)
  {
    if a == [] {
      assert a + b == b;
    } else {
      var c := a + b;
      assert c[0] == a[0] && c[1..] == a[1..] + b;
      FilterAppend(a[1..], b, keep);
    }
  }

  /** The loop at the heart of the inspector: walk the postings in order and
      append each one whose lower-cased title contains a key and that does
      not look automated. */
  method FilterJobs(jobs: seq<Job>, keys: seq<string>, automated: Job -> bool) returns (filtered: seq<Job>)
    ensures filtered == Filter(jobs, KeepWith(keys, automated))
  {
    ghost var keep := KeepWith(keys, automated);
    filtered := [];
    for n := 0 to |jobs|
      invariant filtered == Filter(jobs[..n], keep)
    {
      var j := jobs[n];
      var title := Lower(TitleText(j));
      if AnyOccurs(keys, title) && !automated(j) {
        filtered := filtered + [j];
      }
      assert [j][1..] == [];
      assert Filter([j], keep) == if keep(j) then [j] else [];
      assert jobs[..n + 1] == jobs[..n] + [j];
      FilterAppend(jobs[..n], [j], keep);
    }
    assert jobs[..|jobs|] == jobs;
  }

  /** What the filter loop keeps: a posting is in the result exactly when it
      is one of the parsed postings, its lower-cased title (empty when
      missing) contains some normalised keyword, and the heuristic does not
      flag it. */
  lemma KeptIffMatchingAndNotAutomated(jobs: seq<Job>, keywords: seq<string>, automated: Job -> bool, j: Job)
    ensures j in Filter(jobs, KeepWith(NormalizeKeys(keywords), automated))
        <==> j in jobs
             && (exists k :: k in NormalizeKeys(keywords) && Occurs(k, Lower(TitleText(j))))
             && !automated(j)
  {
    var keep := KeepWith(NormalizeKeys(keywords), automated);
    FilterMembership(jobs, keep, j);
    assert keep(j) == Keep(j, NormalizeKeys(keywords), automated);
  }

  /** A posting is in the result exactly when it is one of the input
      postings and satisfies `keep`. */
  lemma {:induction false} FilterMembership(jobs: seq<Job>, keep: Job -> bool, j: Job)
    ensures j in Filter(jobs, keep) <==> j in jobs && keep(j)
  {
    if jobs != [] {
      FilterMembership(jobs[1..], keep, j);
      assert jobs == [jobs[0]] + jobs[1..];
    }
  }

  /** Nothing is duplicated or invented: a kept posting occurs in the result
      as often as in the input, any other posting not at all. */
  lemma {:induction false} FilterMultiplicity(jobs: seq<Job>, keep: Job -> bool, j: Job)
    ensures multiset(Filter(jobs, keep))[j] == if keep(j) then multiset(jobs)[j] else 0
  {
    if jobs != [] {
      FilterMultiplicity(jobs[1..], keep, j);
      assert jobs == [jobs[0]] + jobs[1..];
    }
  }

  /** `sub` can be obtained from `s` by deleting elements. */
  ghost predicate IsSubsequence(sub: seq<Job>, s: seq<Job>)
    decreases |s|
  {
    if s == [] then sub == []
    else (sub != [] && sub[0] == s[0] && IsSubsequence(sub[1..], s[1..])) || IsSubsequence(sub, s[1..])
  }

  /** The result keeps the relative order of the input postings. */
  lemma {:induction false} FilterIsSubsequence(jobs: seq<Job>, keep: Job -> bool)
    ensures IsSubsequence(Filter(jobs, keep), jobs)
  {
    if jobs != [] {
      var rest := Filter(jobs[1..], keep);
      FilterIsSubsequence(jobs[1..], keep);
      if keep(jobs[0]) {
        assert Filter(jobs, keep) == [jobs[0]] + rest;
        assert ([jobs[0]] + rest)[1..] == rest;
      } else {
        assert Filter(jobs, keep) == rest;
      }
    }
  }

  /** The filtered count is the number of postings that satisfy `keep`. */
  lemma {:induction false} FilterCount(jobs: seq<Job>, keep: Job -> bool)
    ensures |Filter(jobs, keep)| == |Positions(jobs, keep)|
    decreases |jobs|
  {
    if jobs == [] {
      assert Positions(jobs, keep) == {};
    } else {
      var n := |jobs| - 1;
      var front := jobs[..n];
      var last := jobs[n];
      assert jobs == front + [last];
      assert [last][1..] == [];
      FilterAppend(front, [last], keep);
      FilterCount(front, keep);
      PositionsSnoc(front, last, keep);
    }
  }

  /** Filtering a second time changes nothing. */
  lemma {:induction false} FilterIdempotent(jobs: seq<Job>, keep: Job -> bool)
    ensures Filter(Filter(jobs, keep), keep) == Filter(jobs, keep)
  {
    if jobs != [] {
      var rest := Filter(jobs[1..], keep);
      FilterIdempotent(jobs[1..], keep);
      if keep(jobs[0]) {
        var kept := [jobs[0]] + rest;
        assert Filter(jobs, keep) == kept;
        assert kept[0] == jobs[0] && kept[1..] == rest;
      } else {
        assert Filter(jobs, keep) == rest;
      }
    }
  }

  /** With no keys nothing matches, so nothing is kept; in particular when
      every configured keyword is blank. */
  lemma BlankKeywordsKeepNothing(jobs: seq<Job>, keywords: seq<string>, automated: Job -> bool)
    requires forall i :: 0 <= i < |keywords| ==> IsBlank(keywords[i])
    ensures Filter(jobs, KeepWith(NormalizeKeys(keywords), automated)) == []
  {
    NormalizeKeysEmpty(keywords);
  }

  /** A posting with a missing, `None` or empty title is never kept: no
      normalised key is a substring of the empty string. */
  lemma UntitledNeverKept(j: Job, keywords: seq<string>, automated: Job -> bool)
    requires j.title == None || j.title == Some("")
    ensures !Keep(j, NormalizeKeys(keywords), automated)
  {
    var keys := NormalizeKeys(keywords);
    assert Lower(TitleText(j)) == "";
    forall i | 0 <= i < |keys| ensures !Occurs(keys[i], "") {
      OccursEdgeCases(keys[i], "");
    }
  }

  // ---------------------------------------------------------------------
  // main()
  // ---------------------------------------------------------------------

  /** What a run of the inspector reports. */
  datatype Outcome =
    | SnapshotMissing
      // the snapshot file was not found
    | Inspected(raw: nat, filtered: Option<seq<Job>>)
      // `raw` postings were parsed; `filtered` is `None` when there were
      // none, so that no filtering took place

  /** The process exit status of a run. */
  function ExitStatus(o: Outcome): (status: int)
    ensures status == 0 || status == 2
    ensures status == 2 <==> o.SnapshotMissing?
  {
    if o.SnapshotMissing? then 2 else 0
  }

  /** One run of the inspector. `snapshot` is the text of the saved page,
      `None` when the file does not exist; `parse` stands for the scraper's
      page parser, `keywords` for the configured search keywords and
      `automated` for the automated-posting heuristic. */
  method Inspect(snapshot: Option<string>, parse: string -> seq<Job>, keywords: seq<string>,
                 automated: Job -> bool) returns (o: Outcome)
    ensures snapshot.None? ==> o == SnapshotMissing
    ensures snapshot.Some? ==> o.Inspected? && o.raw == |parse(snapshot.value)|
    ensures snapshot.Some? && parse(snapshot.value) == [] ==> o.filtered == None
    ensures snapshot.Some? && parse(snapshot.value) != [] ==>
              o.filtered == Some(Filter(parse(snapshot.value), KeepWith(NormalizeKeys(keywords), automated)))
  {
    if snapshot.None? {
      return SnapshotMissing;
    }
    var jobs := parse(snapshot.value);
    if jobs == [] {
      return Inspected(0, None);
    }
    var keys := NormalizeKeys(keywords);
    var filtered := FilterJobs(jobs, keys, automated);
    return Inspected(|jobs|, Some(filtered));
  }

  /** The single keyword "engineer" normalises to itself. */
  lemma EngineerKey()
    ensures NormalizeKeys(["engineer"]) == ["engineer"]
  {
    assert StrippedAt("engineer", "engineer", 0);
    StripUnique("engineer", "engineer");
    LowerOfLowercase("engineer");
    assert ["engineer"][1..] == [];
  }

  /** The title "Senior Engineer" contains "engineer" once lower-cased. */
  lemma SeniorEngineerMatches()
    ensures Occurs("engineer", Lower("Senior Engineer"))
  {
    var t := Lower("Senior Engineer");
    assert t[7..15] == "engineer";
    assert OccursAt("engineer", t, 7);
  }

  /** A heuristic that flags no posting as automated. */
  predicate NeverAutomated(j: Job)
  {
    false
  }

  /** Example: with the single keyword "engineer" and a heuristic that flags
      nothing, a posting titled "Senior Engineer" is kept and one titled
      "Intern" is not. */
  lemma EngineerExampleKeep()
    ensures KeepWith(NormalizeKeys(["engineer"]), NeverAutomated)(Job(Some("Senior Engineer"), map[]))
    ensures !KeepWith(NormalizeKeys(["engineer"]), NeverAutomated)(Job(Some("Intern"), map[]))
  {
    EngineerKey();
    SeniorEngineerKept();
    InternDropped();
  }

  /** "Senior Engineer" passes the keep test for the key "engineer". */
  lemma SeniorEngineerKept()
    ensures Keep(Job(Some("Senior Engineer"), map[]), ["engineer"], NeverAutomated)
  {
    SeniorEngineerMatches();
    assert "engineer" in ["engineer"];
  }

  /** "Intern" fails the keep test for the key "engineer": the lower-cased
      title is shorter than the key. */
  lemma InternDropped()
    ensures !Keep(Job(Some("Intern"), map[]), ["engineer"], NeverAutomated)
  {
    var t := Lower("Intern");
    assert |t| == 6;
    assert !Occurs("engineer", t);
    assert forall k :: k in ["engineer"] ==> k == "engineer";
  }

  /** Example: of the postings titled "Senior Engineer" and "Intern", the
      single keyword "engineer" and a heuristic that flags nothing keep only
      the first. */
  lemma EngineerExample()
    ensures Filter([Job(Some("Senior Engineer"), map[]), Job(Some("Intern"), map[])],
                   KeepWith(NormalizeKeys(["engineer"]), NeverAutomated))
         == [Job(Some("Senior Engineer"), map[])]
  {
    var senior := Job(Some("Senior Engineer"), map[]);
    var intern := Job(Some("Intern"), map[]);
    var keep := KeepWith(NormalizeKeys(["engineer"]), NeverAutomated);
    EngineerExampleKeep();
    var jobs := [senior, intern];
    assert jobs[1..] == [intern] && [intern][1..] == [];
    assert Filter([intern], keep) == [];
  }
}
