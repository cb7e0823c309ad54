/**
 * pkg/clickhousebuilds/models.go: the nested report of a CI run, and the search in it for a job.
 * `strings.ToLower` of `strings.TrimSpace`, and `strings.EqualFold`, are parameters.
 */
module CiReport {
  import opened Options
  import opened Strings

  datatype Result = Result(name: string, status: string, links: seq<string>, results: seq<Result>)

  /** How the program compares texts. */
  datatype Text = Text(normalize: string -> string, equalFold: (string, string) -> bool)

  // ---------------------------------------------------------------------------------------
  // Which job is looked for
  // ---------------------------------------------------------------------------------------

  predicate IsSuccessStatus(status: string, text: Text) {
    text.normalize(status) in ["success", "ok"]
  }

  const AMD_BUILD := "Build (amd_"

  /** What `amdBuildRe` captures: all of `Build (amd_...)` between, on one line and not empty. */
  function AmdBuild(name: string): Option<string> {
    var n := |AMD_BUILD|;
    if |name| >= n + 2 && AMD_BUILD <= name && name[|name| - 1] == ')' && '\n' !in name[n..|name| - 1]
    then Some(name[n..|name| - 1]) else None
  }

  /** A successful amd64 build job of which one token is the variant. */
  predicate IsBuildOf(res: Result, variant: string, text: Text) {
    var match_ := AmdBuild(res.name);
    && match_.Some? && IsSuccessStatus(res.status, text)
    && exists token <- Split(match_.value, '_') :: text.equalFold(token, variant)
  }

  lemma AmdBuildForm(name: string, prefix: string)
    requires prefix == AMD_BUILD
    ensures forall tags :: AmdBuild(name) == Some(tags) <==> tags != "" && '\n' !in tags && name == prefix + tags + ")"
  {
    forall tags
      ensures AmdBuild(name) == Some(tags) <==> tags != "" && '\n' !in tags && name == prefix + tags + ")"
    {
      if name == prefix + tags + ")" {
        assert name[|prefix|..|name| - 1] == tags;
      }
      if AmdBuild(name) == Some(tags) {
        assert name == name[..|prefix|] + name[|prefix|..|name| - 1] + [name[|name| - 1]];
      }
    }
  }

  /** The jobs looked for: `Build (amd_...)`, where a token between the underscores is the variant. */
  lemma BuildsAreNamed(res: Result, variant: string, text: Text)
    ensures IsBuildOf(res, variant, text)
            <==> && (text.normalize(res.status) == "success" || text.normalize(res.status) == "ok")
                 && exists tokens ::
                      IsJobName(res.name, tokens) && exists token <- tokens :: text.equalFold(token, variant)
  {
    AmdBuildForm(res.name, AMD_BUILD);
    hide AmdBuild;
    if IsBuildOf(res, variant, text) {
      var tags := AmdBuild(res.name).value;
      SplitThenJoin(tags, '_');
      assert IsJobName(res.name, Split(tags, '_'));
    }
    if tokens :| IsJobName(res.name, tokens) && exists token <- tokens :: text.equalFold(token, variant) {
      JoinThenSplit(tokens, '_');
      assert AmdBuild(res.name) == Some(Joined(tokens, '_'));
    }
  }

  predicate IsJobName(name: string, tokens: seq<string>) {
    && tokens != [] && tokens != [""] && name == "Build (amd_" + Joined(tokens, '_') + ")"
    && (forall token <- tokens :: '_' !in token) && '\n' !in name
  }

  // ---------------------------------------------------------------------------------------
  // The search
  // ---------------------------------------------------------------------------------------

  /** `findResult` and `findAMDBuild`: a result before those nested in it, and these before the next. */
  function Find(results: seq<Result>, wanted: Result -> bool): Option<Result>
    decreases results
  {
    if results == [] then None
    else if wanted(results[0]) then Some(results[0])
    else match Find(results[0].results, wanted)
      case Some(nested) => Some(nested)
      case None => Find(results[1..], wanted)
  }

  function FindAMDBuild(results: seq<Result>, variant: string, text: Text): Option<Result> {
    Find(results, res => IsBuildOf(res, variant, text))
  }

  /** A place in the report: the index at each level. */
  type Path = seq<nat>

  predicate IsPath(results: seq<Result>, path: Path)
    decreases path
  {
    path != [] && path[0] < |results| && (|path| == 1 || IsPath(results[path[0]].results, path[1..]))
  }

  function At(results: seq<Result>, path: Path): Result
    requires IsPath(results, path)
    decreases path
  {
    if |path| == 1 then results[path[0]] else At(results[path[0]].results, path[1..])
  }

  /** `p` comes before `q` as one reads the report from top to bottom. */
  predicate Before(p: Path, q: Path)
    decreases p
  {
    q != [] && (p == [] || p[0] < q[0] || (p[0] == q[0] && Before(p[1..], q[1..])))
  }

  /** A result comes before what is nested in it, and that before the next result. */
  lemma {:induction false} ReadingOrder(p: Path, i: nat, j: nat, below: Path, below': Path)
    ensures Before(p, p + [i] + below)
    ensures i < j ==> Before(p + [i] + below, p + [j] + below')
    decreases p
  {
    var a, b := p + [i] + below, p + [j] + below';
    if p != [] {
      assert a[1..] == p[1..] + [i] + below && b[1..] == p[1..] + [j] + below';
      ReadingOrder(p[1..], i, j, below, below');
    }
  }

  /** At `path` there is something wanted, and nowhere before. */
  ghost predicate IsFirst(results: seq<Result>, wanted: Result -> bool, path: Path) {
    && IsPath(results, path) && wanted(At(results, path))
    && forall q :: IsPath(results, q) && Before(q, path) ==> !wanted(At(results, q))
  }

  ghost predicate IsNowhere(results: seq<Result>, wanted: Result -> bool) {
    forall q :: IsPath(results, q) ==> !wanted(At(results, q))
  }

  /** Paths below the first result, and paths to the others. */
  lemma PathCases(results: seq<Result>, q: Path)
    requires IsPath(results, q) && results != []
    ensures q[0] == 0 && |q| == 1 ==> At(results, q) == results[0]
    ensures q[0] == 0 && |q| > 1 ==>
              IsPath(results[0].results, q[1..]) && At(results, q) == At(results[0].results, q[1..])
    ensures q[0] > 0 ==>
              var q' := [q[0] - 1] + q[1..];
              IsPath(results[1..], q') && At(results, q) == At(results[1..], q')
  {
    if q[0] > 0 {
      var q' := [q[0] - 1] + q[1..];
      assert q'[1..] == q[1..];
    }
  }

  lemma FirstAbove(results: seq<Result>, wanted: Result -> bool)
    requires results != [] && wanted(results[0])
    ensures IsFirst(results, wanted, [0]) && At(results, [0]) == results[0]
  {
    var top: Path := [0];
    assert top[1..] == [];
    assert forall q :: IsPath(results, q) ==> !Before(q, top);
  }

  lemma FirstBelow(results: seq<Result>, wanted: Result -> bool, path: Path)
    requires results != [] && !wanted(results[0]) && IsFirst(results[0].results, wanted, path)
    ensures IsFirst(results, wanted, [0] + path) && At(results, [0] + path) == At(results[0].results, path)
  {
    assert ([0] + path)[1..] == path;
    forall q | IsPath(results, q) && Before(q, [0] + path)
      ensures !wanted(At(results, q))
    {
      PathCases(results, q);
    }
  }

  lemma FirstAfter(results: seq<Result>, wanted: Result -> bool, path: Path)
    requires results != [] && !wanted(results[0]) && IsNowhere(results[0].results, wanted)
    requires IsFirst(results[1..], wanted, path)
    ensures var shifted := [path[0] + 1] + path[1..];
            IsFirst(results, wanted, shifted) && At(results, shifted) == At(results[1..], path)
  {
    var shifted := [path[0] + 1] + path[1..];
    assert shifted[1..] == path[1..] && [shifted[0] - 1] + shifted[1..] == path;
    forall q | IsPath(results, q) && Before(q, shifted)
      ensures !wanted(At(results, q))
    {
      PathCases(results, q);
      if q[0] > 0 {
        var q' := [q[0] - 1] + q[1..];
        assert q'[1..] == q[1..];
        assert Before(q', path);
      }
    }
  }

  lemma NowhereCases(results: seq<Result>, wanted: Result -> bool)
    requires results != [] && !wanted(results[0])
    requires IsNowhere(results[0].results, wanted) && IsNowhere(results[1..], wanted)
    ensures IsNowhere(results, wanted)
  {
    forall q | IsPath(results, q)
      ensures !wanted(At(results, q))
    {
      PathCases(results, q);
    }
  }

  /** The search finds what comes first in the report; nothing exactly if it is nowhere in it. */
  lemma {:induction false} FindIsFirst(results: seq<Result>, wanted: Result -> bool)
    ensures Find(results, wanted).None? ==> IsNowhere(results, wanted)
    ensures Find(results, wanted).Some? ==>
              exists path :: IsFirst(results, wanted, path) && At(results, path) == Find(results, wanted).value
    decreases results
  {
    if results == [] {
    } else if wanted(results[0]) {
      FirstAbove(results, wanted);
    } else {
      FindIsFirst(results[0].results, wanted);
      FindIsFirst(results[1..], wanted);
      hide IsFirst, IsNowhere;
      if Find(results[0].results, wanted).Some? {
        var path :| IsFirst(results[0].results, wanted, path)
                    && At(results[0].results, path) == Find(results[0].results, wanted).value;
        FirstBelow(results, wanted, path);
      } else if Find(results[1..], wanted).Some? {
        var path :| IsFirst(results[1..], wanted, path) && At(results[1..], path) == Find(results[1..], wanted).value;
        FirstAfter(results, wanted, path);
      } else {
        NowhereCases(results, wanted);
      }
    }
  }

  /** The order is total, so there is one first place. */
  lemma {:induction false} OnePathBefore(p: Path, q: Path)
    ensures p == q || Before(p, q) || Before(q, p)
    ensures !(Before(p, q) && Before(q, p))
    decreases p
  {
    if p != [] && q != [] && p[0] == q[0] {
      OnePathBefore(p[1..], q[1..]);
      assert p == [p[0]] + p[1..] && q == [q[0]] + q[1..];
    }
  }

  /** `AMDBuildJob`: the first successful build of the variant, if there is one. */
  lemma BuildJobIsFirst(results: seq<Result>, variant: string, text: Text)
    ensures FindAMDBuild(results, variant, text).Some? <==>
              exists path :: IsPath(results, path) && IsBuildOf(At(results, path), variant, text)
    ensures forall path :: IsFirst(results, res => IsBuildOf(res, variant, text), path) ==>
              FindAMDBuild(results, variant, text) == Some(At(results, path))
  {
    hide IsBuildOf;
    var wanted := res => IsBuildOf(res, variant, text);
    FindIsFirst(results, wanted);
    forall path | IsFirst(results, wanted, path)
      ensures FindAMDBuild(results, variant, text) == Some(At(results, path))
    {
      var found :| IsFirst(results, wanted, found) && At(results, found) == Find(results, wanted).value;
      OnePathBefore(found, path);
    }
  }
}
