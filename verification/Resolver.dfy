/**
 * internal/cibuild/resolver.go: from a version and a build type to the packages of a CI build.
 * Commits are probed in order; what is found is cached for a while. The answers of the CI and of
 * GitHub are parameters.
 */
module Resolver {
  import opened Options
  import opened Strings
  import opened CiReport
  import opened Sorting

  // ---------------------------------------------------------------------------------------
  // Packages
  // ---------------------------------------------------------------------------------------

  function TrimSlashes(p: string): (q: string)
    ensures q <= p && (q == "" || q[|q| - 1] != '/')
  {
    if p != "" && p[|p| - 1] == '/' then TrimSlashes(p[..|p| - 1]) else p
  }

  function AfterLastSlash(p: string): (q: string)
    ensures '/' !in q && |q| <= |p| && q == p[|p| - |q|..]
    ensures |q| < |p| ==> p[|p| - |q| - 1] == '/'
  {
    if p == "" || p[|p| - 1] == '/' then "" else AfterLastSlash(p[..|p| - 1]) + [p[|p| - 1]]
  }

  /** `path.Base`. */
  function Base(p: string): string {
    if p == "" then "."
    else
      var last := AfterLastSlash(TrimSlashes(p));
      if last == "" then "/" else last
  }

  predicate EndsWith(s: string, suffix: string) {
    |suffix| <= |s| && s[|s| - |suffix|..] == suffix
  }

  predicate IsPackage(link: string, prefix: string) {
    prefix <= Base(link) && EndsWith(Base(link), ".deb")
  }

  lemma LastElement(dir: string, name: string)
    requires '/' !in name && (dir == "" || dir[|dir| - 1] == '/')
    ensures AfterLastSlash(dir + name) == name
  {
    var p := dir + name;
    var q := AfterLastSlash(p);
    hide AfterLastSlash;
    assert forall k :: |dir| <= k < |p| ==> p[k] == name[k - |dir|] && p[k] != '/';
    assert dir != "" ==> p[|dir| - 1] == '/';
    assert forall k :: |p| - |q| <= k < |p| ==> p[k] == q[k - (|p| - |q|)] && p[k] != '/';
    assert |q| == |name|;
  }

  lemma {:induction false} SlashesGo(p: string, slashes: string)
    requires (forall c <- slashes :: c == '/') && (p == "" || p[|p| - 1] != '/')
    ensures TrimSlashes(p + slashes) == p
  {
    if slashes == "" {
      assert p + slashes == p;
    } else {
      var longer, front := p + slashes, slashes[..|slashes| - 1];
      assert slashes[|slashes| - 1] in slashes && forall c <- front :: c in slashes;
      assert longer[|longer| - 1] == '/' && longer[..|longer| - 1] == p + front;
      SlashesGo(p, front);
    }
  }

  /** The base of a path is its last element; slashes at the end do not count. */
  lemma BaseIsLastElement(dir: string, name: string, slashes: string)
    requires '/' !in name && (dir == "" || dir[|dir| - 1] == '/') && forall c <- slashes :: c == '/'
    ensures name != "" ==> Base(dir + name + slashes) == name
    ensures Base(slashes) == if slashes == "" then "." else "/"
  {
    if name != "" {
      assert (dir + name)[|dir + name| - 1] == name[|name| - 1] && name[|name| - 1] in name;
      SlashesGo(dir + name, slashes);
      LastElement(dir, name);
    }
    SlashesGo("", slashes);
    assert "" + slashes == slashes;
  }

  /** What counts is the file name: a link to it is to a package if it starts and ends as required. */
  lemma PackagesAreNamed(dir: string, name: string, prefix: string)
    requires name != "" && '/' !in name && (dir == "" || dir[|dir| - 1] == '/')
    ensures IsPackage(dir + name, prefix) <==> prefix <= name && exists middle :: name == middle + ".deb"
  {
    BaseIsLastElement(dir, name, "");
    assert dir + name + "" == dir + name;
    EndsWithPart(name, ".deb");
    hide Base, EndsWith;
  }

  lemma EndsWithPart(s: string, suffix: string)
    ensures EndsWith(s, suffix) <==> exists front :: s == front + suffix
  {
    if EndsWith(s, suffix) {
      assert s == s[..|s| - |suffix|] + suffix;
    }
  }

  /** `urls` has, for every prefix in turn, the first link to a package with that prefix. */
  ghost predicate AreFirstPackages(urls: seq<string>, links: seq<string>, prefixes: seq<string>) {
    && |urls| == |prefixes|
    && forall i :: 0 <= i < |prefixes| ==> IsFirstPackage(urls[i], links, prefixes[i])
  }

  ghost predicate IsFirstPackage(url: string, links: seq<string>, prefix: string) {
    exists k :: 0 <= k < |links| && links[k] == url && IsPackage(url, prefix)
                && forall l :: 0 <= l < k ==> !IsPackage(links[l], prefix)
  }

  /** There is one first link to a package. */
  lemma FirstPackageIsFirst(url: string, links: seq<string>, prefix: string, k: nat)
    requires k < |links| && IsPackage(links[k], prefix) && forall l :: 0 <= l < k ==> !IsPackage(links[l], prefix)
    ensures IsFirstPackage(url, links, prefix) <==> url == links[k]
  {
    hide IsPackage;
  }

  predicate HasPackage(links: seq<string>, prefix: string) {
    exists k :: 0 <= k < |links| && IsPackage(links[k], prefix)
  }

  predicate HasPackages(links: seq<string>, prefixes: seq<string>) {
    forall i :: 0 <= i < |prefixes| ==> HasPackage(links, prefixes[i])
  }

  /** No name starts with both. */
  predicate Clash(p: string, q: string) {
    exists k :: 0 <= k < |p| && k < |q| && p[k] != q[k]
  }

  lemma EmptyLinkIsNoPackage(prefix: string)
    requires prefix != "" && prefix[0] != '.'
    ensures !IsPackage("", prefix)
  {
    assert Base("")[0] == '.';
  }

  ghost predicate NoneBefore(links: seq<string>, prefix: string, k: nat)
    requires k <= |links|
  {
    forall l :: 0 <= l < k ==> !IsPackage(links[l], prefix)
  }

  lemma FirstIsFound(links: seq<string>, prefix: string, k: nat)
    requires k < |links| && IsPackage(links[k], prefix) && NoneBefore(links, prefix, k)
    ensures HasPackage(links, prefix) && IsFirstPackage(links[k], links, prefix)
  {
    hide IsPackage;
  }

  lemma NoneIsFound(links: seq<string>, prefix: string)
    requires NoneBefore(links, prefix, |links|)
    ensures !HasPackage(links, prefix)
  {
    hide IsPackage;
  }

  lemma OneMore(links: seq<string>, prefix: string, k: nat)
    requires k < |links| && !IsPackage(links[k], prefix) && NoneBefore(links, prefix, k)
    ensures NoneBefore(links, prefix, k + 1)
  {
    hide IsPackage;
  }

  /** The first match of one prefix; the empty string, as in the program, if there is none. */
  method MatchPrefix(links: seq<string>, prefix: string) returns (matched: string)
    requires prefix != "" && prefix[0] != '.'
    ensures matched == "" <==> !HasPackage(links, prefix)
    ensures matched != "" ==> IsFirstPackage(matched, links, prefix)
  {
    matched := "";
    EmptyLinkIsNoPackage(prefix);
    assert NoneBefore(links, prefix, 0);
    hide IsPackage, HasPackage, IsFirstPackage, NoneBefore;
    for k := 0 to |links|
      invariant matched == "" && NoneBefore(links, prefix, k)
    {
      if IsPackage(links[k], prefix) {
        FirstIsFound(links, prefix, k);
        matched := links[k];
        return;
      }
      OneMore(links, prefix, k);
    }
    NoneIsFound(links, prefix);
  }

  /** `selectPackageURLs`, with `requiredPackagePrefixes` as a parameter. */
  method SelectPackageURLs(links: seq<string>, prefixes: seq<string>) returns (urls: Option<seq<string>>)
    requires forall i :: 0 <= i < |prefixes| ==> prefixes[i] != "" && prefixes[i][0] != '.'
    ensures urls.Some? <==> HasPackages(links, prefixes)
    ensures urls.Some? ==> AreFirstPackages(urls.value, links, prefixes)
  {
    hide HasPackage, IsFirstPackage;
    var found := [];
    for i := 0 to |prefixes|
      invariant |found| == i
      invariant forall j :: 0 <= j < i ==>
                  HasPackage(links, prefixes[j]) && IsFirstPackage(found[j], links, prefixes[j])
    {
      var matched := MatchPrefix(links, prefixes[i]);
      if matched == "" {
        return None;
      }
      found := found + [matched];
    }
    return Some(found);
  }

  /** Packages of different names come from different links. */
  lemma PackagesAreDistinct(urls: seq<string>, links: seq<string>, prefixes: seq<string>)
    requires AreFirstPackages(urls, links, prefixes)
    requires forall i, j :: 0 <= i < j < |prefixes| ==> Clash(prefixes[i], prefixes[j])
    ensures NoDuplicates(urls)
  {
    hide Base, EndsWith;
    forall i, j | 0 <= i < j < |urls|
      ensures urls[i] != urls[j]
    {
      assert IsFirstPackage(urls[i], links, prefixes[i]) && IsFirstPackage(urls[j], links, prefixes[j]);
      assert prefixes[i] <= Base(urls[i]) && prefixes[j] <= Base(urls[j]);
      var k :| 0 <= k < |prefixes[i]| && k < |prefixes[j]| && prefixes[i][k] != prefixes[j][k];
      assert Base(urls[i])[k] != Base(urls[j])[k];
    }
  }

  const COMMON := "clickhouse-common-static_"
  const SERVER := "clickhouse-server_"
  const CLIENT := "clickhouse-client_"

  const REQUIRED_PACKAGE_PREFIXES := [COMMON, SERVER, CLIENT]

  lemma PrefixesClash()
    ensures forall i, j :: 0 <= i < j < 3 ==> Clash(REQUIRED_PACKAGE_PREFIXES[i], REQUIRED_PACKAGE_PREFIXES[j])
    ensures forall i :: 0 <= i < 3 ==> REQUIRED_PACKAGE_PREFIXES[i] != "" && REQUIRED_PACKAGE_PREFIXES[i][0] != '.'
  {
    assert COMMON[11] == 'c' && SERVER[11] == 's' && CLIENT[11] == 'c';
    assert COMMON[12] == 'o' && CLIENT[12] == 'l';
    assert Clash(COMMON, SERVER) && Clash(SERVER, CLIENT) && Clash(COMMON, CLIENT);
  }

  // ---------------------------------------------------------------------------------------
  // Versions and candidate commits
  // ---------------------------------------------------------------------------------------

  datatype ProbeError = ReportFailed | NoBuild | MissingPackage

  /** `Probe` is the error of the last commit probed. */
  datatype Error = ReleaseBuild | BadVersion | ListingFailed | NoCommits | Probe(last: ProbeError)

  datatype Outcome<+T> = Ok(value: T) | Err(error: Error)

  predicate IsNumeral(s: string) {
    s != "" && forall c <- s :: '0' <= c <= '9'
  }

  /** `fullVersionRe`. */
  predicate IsFullVersion(version: string) {
    var parts := Split(version, '.');
    |parts| == 4 && forall part <- parts :: IsNumeral(part)
  }

  /** `releaseBranchRef`: major and minor. */
  function BranchRef(version: string): Option<string> {
    var parts := Split(version, '.');
    if |parts| < 2 || parts[0] == "" || parts[1] == "" then None else Some(parts[0] + "." + parts[1])
  }

  /** The branch of a version is what the version says up to its second dot. */
  lemma BranchRefIsPrefix(version: string)
    requires BranchRef(version).Some?
    ensures var ref := BranchRef(version).value;
            ref <= version && (version == ref || version[|ref|] == '.')
  {
    var parts, ref := Split(version, '.'), BranchRef(version).value;
    SplitThenJoin(version, '.');
    var rest := parts[1..];
    assert version == parts[0] + "." + Joined(rest, '.');
    if |parts| == 2 {
      assert Joined(rest, '.') == parts[1];
      assert version == ref;
    } else {
      assert Joined(rest, '.') == parts[1] + "." + Joined(rest[1..], '.');
      assert version == ref + ("." + Joined(rest[1..], '.'));
    }
  }

  /** A fully qualified version has a branch. */
  lemma FullVersionHasBranch(version: string)
    requires IsFullVersion(version)
    ensures BranchRef(version).Some?
  {
    var parts := Split(version, '.');
    assert parts[0] in parts && parts[1] in parts;
  }

  /** Four numbers between dots. */
  lemma FullVersionIsFourNumbers(version: string)
    ensures IsFullVersion(version) <==> exists a, b, c, d :: IsDotted(version, a, b, c, d)
  {
    SplitThenJoin(version, '.');
    var parts := Split(version, '.');
    if IsFullVersion(version) {
      var a, b, c, d := parts[0], parts[1], parts[2], parts[3];
      assert parts == [a, b, c, d] && a in parts && b in parts && c in parts && d in parts;
      JoinedFour(a, b, c, d);
      assert IsDotted(version, a, b, c, d);
    }
    if a, b, c, d :| IsDotted(version, a, b, c, d) {
      JoinedFour(a, b, c, d);
      assert forall part <- [a, b, c, d] :: '.' !in part;
      JoinThenSplit([a, b, c, d], '.');
    }
  }

  ghost predicate IsDotted(version: string, a: string, b: string, c: string, d: string) {
    && version == a + "." + b + "." + c + "." + d
    && forall part <- [a, b, c, d] :: part != "" && forall x <- part :: '0' <= x <= '9'
  }

  lemma JoinedFour(a: string, b: string, c: string, d: string)
    ensures Joined([a, b, c, d], '.') == a + "." + b + "." + c + "." + d
  {
    JoinedCons(c, [d]);
    JoinedCons(b, [c, d]);
    JoinedCons(a, [b, c, d]);
    hide Joined;
    assert [c] + [d] == [c, d] && [b] + [c, d] == [b, c, d] && [a] + [b, c, d] == [a, b, c, d];
    assert a + "." + (b + "." + (c + "." + d)) == a + "." + b + "." + c + "." + d;
  }

  lemma JoinedCons(part: string, parts: seq<string>)
    requires parts != []
    ensures Joined([part] + parts, '.') == part + "." + Joined(parts, '.')
    ensures |parts| == 1 ==> Joined(parts, '.') == parts[0]
  {
    assert ([part] + parts)[1..] == parts;
  }

  /** The branch is what is left and right of the first dot; only then another dot may follow. */
  lemma BranchIsMajorAndMinor(version: string, ref: string)
    ensures BranchRef(version) == Some(ref) <==>
              && (version == ref || ref + "." <= version)
              && exists major, minor :: IsBranch(ref, major, minor)
  {
    if BranchRef(version) == Some(ref) {
      var parts := Split(version, '.');
      SplitThenJoin(version, '.');
      BranchRefIsPrefix(version);
      assert parts[0] in parts && parts[1] in parts;
      assert IsBranch(ref, parts[0], parts[1]);
    }
    if (version == ref || ref + "." <= version) && exists major, minor :: IsBranch(ref, major, minor) {
      var major, minor :| IsBranch(ref, major, minor);
      BranchIsFound(version, ref, major, minor);
    }
  }

  lemma BranchIsFound(version: string, ref: string, major: string, minor: string)
    requires (version == ref || ref + "." <= version) && IsBranch(ref, major, minor)
    ensures BranchRef(version) == Some(ref)
  {
    var rest := version[|major| + 1..];
    assert version == major + "." + rest;
    SplitFirstPart(major, '.', rest);
    if version == ref {
      assert rest == minor;
      SplitOnePart(minor, '.');
    } else {
      assert rest == minor + "." + version[|ref| + 1..];
      SplitFirstPart(minor, '.', version[|ref| + 1..]);
    }
  }

  predicate IsBranch(ref: string, major: string, minor: string) {
    ref == major + "." + minor && major != "" && minor != "" && '.' !in major && '.' !in minor
  }

  function Without<T(==)>(shas: seq<T>, sha: T): seq<T> {
    if shas == [] then []
    else Without(shas[..|shas| - 1], sha) + if shas[|shas| - 1] == sha then [] else [shas[|shas| - 1]]
  }

  /** What comes first is not repeated. */
  function FirstOnce<T(==)>(shas: seq<T>): seq<T> {
    if shas == [] then [] else [shas[0]] + Without(shas[1..], shas[0])
  }

  /** The tagged commit, if any, then the recent ones. */
  function Candidates<T(==)>(tagged: Option<T>, recent: seq<T>): seq<T> {
    FirstOnce((if tagged.Some? then [tagged.value] else []) + recent)
  }

  lemma {:induction false} WithoutKeepsTheRest<T>(shas: seq<T>, sha: T)
    ensures |Without(shas, sha)| <= |shas|
    ensures forall x :: x in Without(shas, sha) <==> x in shas && x != sha
  {
    if shas != [] {
      var front, last := shas[..|shas| - 1], shas[|shas| - 1];
      WithoutKeepsTheRest(front, sha);
      assert shas == front + [last];
    }
  }

  lemma DuplicatesSnoc<T>(shas: seq<T>, last: T)
    ensures NoDuplicates(shas + [last]) <==> NoDuplicates(shas) && last !in shas
  {
    var longer := shas + [last];
    assert forall i :: 0 <= i < |shas| ==> longer[i] == shas[i];
    assert NoDuplicates(longer) ==> last !in shas by {
      assert longer[|shas|] == last;
    }
  }

  lemma {:induction false} WithoutHasNoDuplicates<T>(shas: seq<T>, sha: T)
    requires NoDuplicates(shas)
    ensures NoDuplicates(Without(shas, sha))
  {
    if shas != [] {
      var front, last := shas[..|shas| - 1], shas[|shas| - 1];
      assert shas == front + [last];
      DuplicatesSnoc(front, last);
      WithoutHasNoDuplicates(front, sha);
      WithoutKeepsTheRest(front, sha);
      DuplicatesSnoc(Without(front, sha), last);
      hide NoDuplicates;
      assert last == sha ==> Without(shas, sha) == Without(front, sha);
    }
  }

  lemma DuplicatesCons<T>(first: T, shas: seq<T>)
    requires first !in shas
    ensures NoDuplicates(shas) ==> NoDuplicates([first] + shas)
  {
  }

  lemma FirstOnceKeepsAll<T>(first: T, rest: seq<T>)
    requires NoDuplicates(rest)
    ensures FirstOnce([first] + rest) == [first] + Without(rest, first) && NoDuplicates([first] + Without(rest, first))
    ensures forall x :: x in [first] + Without(rest, first) <==> x == first || x in rest
  {
    assert ([first] + rest)[1..] == rest;
    WithoutKeepsTheRest(rest, first);
    WithoutHasNoDuplicates(rest, first);
    DuplicatesCons(first, Without(rest, first));
  }

  /** Every commit is a candidate, once if the recent ones are distinct; the tagged one comes first. */
  lemma CandidatesAreDistinct<T>(tagged: Option<T>, recent: seq<T>)
    requires NoDuplicates(recent)
    ensures NoDuplicates(Candidates(tagged, recent))
    ensures forall x :: x in Candidates(tagged, recent) <==> tagged == Some(x) || x in recent
    ensures tagged.Some? ==> Candidates(tagged, recent) == [tagged.value] + Without(recent, tagged.value)
    ensures tagged.None? ==> Candidates(tagged, recent) == recent
  {
    hide FirstOnce, NoDuplicates, Without;
    if tagged.Some? {
      FirstOnceKeepsAll(tagged.value, recent);
    } else {
      assert [] + recent == recent;
      FirstOnceOfDistinct(recent);
    }
  }

  lemma FirstOnceOfDistinct<T>(shas: seq<T>)
    requires NoDuplicates(shas)
    ensures FirstOnce(shas) == shas
  {
    if shas != [] {
      assert shas == [shas[0]] + shas[1..];
      NothingToDrop(shas[1..], shas[0]);
    }
  }

  lemma {:induction false} NothingToDrop<T>(shas: seq<T>, sha: T)
    requires sha !in shas
    ensures Without(shas, sha) == shas
  {
    if shas != [] {
      NothingToDrop(shas[..|shas| - 1], sha);
    }
  }

  const MAX_CANDIDATE_COMMITS := 5

  /**
   * What GitHub and the CI answer in one call of `Resolve`: the commit of a tag, the newest commits of
   * a branch, and the report of a commit of a branch when it is the k-th to be probed.
   */
  datatype Answers = Answers(commit: string -> Option<string>, recent: (string, nat) -> Option<seq<string>>,
                             report: (nat, string, string) -> Option<seq<Result>>)

  /** The commit of the tag of the version; asked for fully qualified versions only. */
  function Tagged(version: string, answers: Answers): Option<string> {
    if IsFullVersion(version) then answers.commit("v" + version + "-stable") else None
  }

  /** The tagged commit or the recent ones are enough. */
  function CandidatesFor(version: string, ref: string, answers: Answers): (shas: Outcome<seq<string>>)
    ensures shas.Ok? ==> shas.value != []
    ensures shas.Err? ==> shas.error in [ListingFailed, NoCommits]
  {
    var tagged, recent := Tagged(version, answers), answers.recent(ref, MAX_CANDIDATE_COMMITS);
    if recent.None? then (if tagged.Some? then Ok([tagged.value]) else Err(ListingFailed))
    else if Candidates(tagged, recent.value) == [] then Err(NoCommits)
    else Ok(Candidates(tagged, recent.value))
  }

  /**
   * The commit of the tag of a fully qualified version is tried first, and even alone; it is not
   * repeated. Otherwise the five recent commits of the branch are all there is to try.
   */
  lemma TaggedCommitComesFirst(version: string, ref: string, answers: Answers)
    requires answers.recent(ref, 5).Some? ==> NoDuplicates(answers.recent(ref, 5).value)
    ensures var tagged, recent := answers.commit("v" + version + "-stable"), answers.recent(ref, 5);
            var shas := CandidatesFor(version, ref, answers);
            if IsFullVersion(version) && tagged.Some? then
              && (recent.None? ==> shas == Ok([tagged.value]))
              && (recent.Some? && tagged.value !in recent.value ==> shas == Ok([tagged.value] + recent.value))
              && (recent.Some? ==> forall i | 0 <= i < |recent.value| && recent.value[i] == tagged.value ::
                                     shas == Ok([tagged.value] + recent.value[..i] + recent.value[i + 1..]))
            else
              shas == if recent.None? then Err(ListingFailed)
                      else if recent.value == [] then Err(NoCommits) else Ok(recent.value)
  {
    var tagged, recent := Tagged(version, answers), answers.recent(ref, 5);
    hide IsFullVersion, Candidates, NoDuplicates;
    if recent.Some? {
      CandidatesAreDistinct(tagged, recent.value);
      if tagged.Some? { CandidatesExactly(tagged.value, recent.value); }
    }
  }

  lemma CandidatesExactly<T>(tagged: T, recent: seq<T>)
    requires NoDuplicates(recent)
    ensures tagged !in recent ==> Candidates(Some(tagged), recent) == [tagged] + recent
    ensures forall i | 0 <= i < |recent| && recent[i] == tagged ::
              Candidates(Some(tagged), recent) == [tagged] + recent[..i] + recent[i + 1..]
  {
    if tagged !in recent {
      CandidatesAreDistinct(Some(tagged), recent);
      NothingToDrop(recent, tagged);
    }
    forall i | 0 <= i < |recent| && recent[i] == tagged
      ensures Candidates(Some(tagged), recent) == [tagged] + recent[..i] + recent[i + 1..]
    {
      hide Candidates, NoDuplicates;
      DistinctAround(recent, i);
      TaggedIsRecent(recent[..i], tagged, recent[i + 1..]);
    }
  }

  lemma TaggedIsRecent<T>(left: seq<T>, sha: T, right: seq<T>)
    requires sha !in left && sha !in right
    ensures Candidates(Some(sha), left + [sha] + right) == [sha] + left + right
  {
    var recent := left + [sha] + right;
    WithoutOne(left, sha, right);
    hide Without;
    assert ([sha] + recent)[1..] == recent;
    assert [sha] + (left + right) == [sha] + left + right;
  }

  lemma WithoutOne<T>(left: seq<T>, sha: T, right: seq<T>)
    requires sha !in left && sha !in right
    ensures Without(left + [sha] + right, sha) == left + right
  {
    NothingToDrop(left, sha);
    NothingToDrop(right, sha);
    WithoutSnoc(left, sha, sha);
    WithoutConcat(left + [sha], right, sha);
    hide Without;
    assert left + [] == left;
  }

  lemma DistinctAround<T>(shas: seq<T>, i: nat)
    requires NoDuplicates(shas) && i < |shas|
    ensures shas[i] !in shas[..i] && shas[i] !in shas[i + 1..] && shas == shas[..i] + [shas[i]] + shas[i + 1..]
  {
  }

  lemma {:induction false} WithoutConcat<T>(a: seq<T>, b: seq<T>, sha: T)
    ensures Without(a + b, sha) == Without(a, sha) + Without(b, sha)
  {
    if b == [] {
      assert a + b == a;
    } else {
      var front, last := b[..|b| - 1], b[|b| - 1];
      assert a + b == (a + front) + [last];
      WithoutConcat(a, front, sha);
      WithoutSnoc(a + front, last, sha);
    }
  }

  /** The loop over the recent commits, with the tagged one, if any, already there. */
  method AppendRecent(tried: seq<string>, recent: seq<string>, ghost tagged: Option<string>)
      returns (shas: seq<string>)
    requires tried == Candidates(tagged, [])
    ensures shas == Candidates(tagged, recent)
  {
    hide Candidates;
    shas := tried;
    for i := 0 to |recent|
      invariant shas == Candidates(tagged, recent[..i])
    {
      CandidatesSnoc(tagged, recent[..i], recent[i]);
      assert recent[..i] + [recent[i]] == recent[..i + 1];
      if |shas| == 0 || shas[0] != recent[i] {
        shas := shas + [recent[i]];
      }
    }
    assert recent[..|recent|] == recent;
  }

  lemma CandidatesAre(version: string, ref: string, answers: Answers)
    ensures var tagged, recent := Tagged(version, answers), answers.recent(ref, MAX_CANDIDATE_COMMITS);
            CandidatesFor(version, ref, answers)
            == if recent.None? then (if tagged.Some? then Ok([tagged.value]) else Err(ListingFailed))
               else if Candidates(tagged, recent.value) == [] then Err(NoCommits)
               else Ok(Candidates(tagged, recent.value))
  {
  }

  lemma CandidatesComeFrom(version: string, ref: string, answers: Answers)
    ensures var shas, tagged := CandidatesFor(version, ref, answers), answers.commit("v" + version + "-stable");
            if IsFullVersion(version) && tagged.Some? then shas.Ok? && shas.value[0] == tagged.value
            else shas.Ok? ==>
              answers.recent(ref, 5).Some? && forall sha <- shas.value :: sha in answers.recent(ref, 5).value
  {
    var tagged, recent := Tagged(version, answers), answers.recent(ref, 5);
    hide IsFullVersion;
    if recent.Some? && tagged.None? && recent.value != [] {
      assert [] + recent.value == recent.value;
      WithoutKeepsTheRest(recent.value[1..], recent.value[0]);
    }
  }

  method CandidateSHAs(version: string, ref: string, answers: Answers) returns (shas: Outcome<seq<string>>)
    ensures shas == CandidatesFor(version, ref, answers)
    ensures IsFullVersion(version) && answers.commit("v" + version + "-stable").Some? ==>
              shas.Ok? && shas.value[0] == answers.commit("v" + version + "-stable").value
    ensures !(IsFullVersion(version) && answers.commit("v" + version + "-stable").Some?) && shas.Ok? ==>
              answers.recent(ref, 5).Some? && forall sha <- shas.value :: sha in answers.recent(ref, 5).value
  {
    CandidatesComeFrom(version, ref, answers);
    hide IsFullVersion, CandidatesFor;
    var found := [];
    if IsFullVersion(version) {
      var resolved := answers.commit("v" + version + "-stable");
      if resolved.Some? {
        found := [resolved.value];
      }
    }
    ghost var tagged := Tagged(version, answers);
    CandidatesAre(version, ref, answers);
    NoRecentCandidates(tagged);
    hide Candidates;
    var recent := answers.recent(ref, MAX_CANDIDATE_COMMITS);
    if recent.None? {
      return if |found| > 0 then Ok(found) else Err(ListingFailed);
    }
    found := AppendRecent(found, recent.value, tagged);
    shas := if |found| == 0 then Err(NoCommits) else Ok(found);
  }

  lemma NoRecentCandidates<T>(tagged: Option<T>)
    ensures Candidates(tagged, []) == if tagged.Some? then [tagged.value] else []
  {
  }

  lemma WithoutSnoc<T>(shas: seq<T>, last: T, sha: T)
    ensures Without(shas + [last], sha) == Without(shas, sha) + if last == sha then [] else [last]
  {
    assert (shas + [last])[..|shas|] == shas;
  }

  lemma FirstOnceSnoc<T>(shas: seq<T>, sha: T)
    ensures FirstOnce(shas + [sha]) == if shas == [] || shas[0] != sha then FirstOnce(shas) + [sha] else FirstOnce(shas)
    ensures FirstOnce(shas) == [] <==> shas == []
    ensures shas != [] ==> FirstOnce(shas)[0] == shas[0]
  {
    if shas == [] {
      assert [sha][1..] == [];
    } else {
      var rest := shas[1..];
      WithoutSnoc(rest, sha, shas[0]);
      assert (shas + [sha])[1..] == rest + [sha];
      hide Without;
      assert [shas[0]] + (Without(rest, shas[0]) + [sha]) == [shas[0]] + Without(rest, shas[0]) + [sha];
    }
  }

  lemma CandidatesSnoc<T>(tagged: Option<T>, recent: seq<T>, sha: T)
    ensures var shas := Candidates(tagged, recent);
            Candidates(tagged, recent + [sha]) == if shas == [] || shas[0] != sha then shas + [sha] else shas
  {
    hide FirstOnce;
    var head := if tagged.Some? then [tagged.value] else [];
    FirstOnceSnoc(head + recent, sha);
    assert head + (recent + [sha]) == (head + recent) + [sha];
  }

  // ---------------------------------------------------------------------------------------
  // Probing
  // ---------------------------------------------------------------------------------------

  /** The report has a job for the build type, and the job all the packages. */
  predicate Works(report: Option<seq<Result>>, bt: string, text: Text) {
    && report.Some? && FindAMDBuild(report.value, bt, text).Some?
    && HasPackages(FindAMDBuild(report.value, bt, text).value.links, REQUIRED_PACKAGE_PREFIXES)
  }

  /** In the first job of the report that is a build for the type there is a link to each package. */
  lemma WorksIffPackagesAreThere(report: Option<seq<Result>>, bt: string, text: Text)
    ensures Works(report, bt, text)
            <==> && report.Some?
                 && exists path :: && IsFirst(report.value, res => IsBuildOf(res, bt, text), path)
                                   && HasThreePackages(At(report.value, path).links)
  {
    hide IsBuildOf, IsPackage, Find, IsFirst, HasPackages, HasThreePackages;
    if report.Some? {
      var wanted := res => IsBuildOf(res, bt, text);
      FindIsFirst(report.value, wanted);
      BuildJobIsFirst(report.value, bt, text);
      forall links
        ensures HasPackages(links, REQUIRED_PACKAGE_PREFIXES) <==> HasThreePackages(links)
      {
        ThreePackages(links);
      }
    }
  }

  lemma ThreePackages(links: seq<string>)
    ensures HasPackages(links, REQUIRED_PACKAGE_PREFIXES) <==> HasThreePackages(links)
  {
    hide IsPackage;
    var prefixes := REQUIRED_PACKAGE_PREFIXES;
    assert HasPackages(links, prefixes)
      <==> HasPackage(links, prefixes[0]) && HasPackage(links, prefixes[1]) && HasPackage(links, prefixes[2]);
  }

  predicate HasThreePackages(links: seq<string>) {
    && (exists link <- links :: IsPackage(link, "clickhouse-common-static_"))
    && (exists link <- links :: IsPackage(link, "clickhouse-server_"))
    && (exists link <- links :: IsPackage(link, "clickhouse-client_"))
  }

  /** Why a report does not work. */
  function Failure(report: Option<seq<Result>>, bt: string, text: Text): ProbeError {
    if report.None? then ReportFailed
    else if FindAMDBuild(report.value, bt, text).None? then NoBuild
    else MissingPackage
  }

  /** The packages of a job for this build type. */
  ghost predicate ArePackagesOf(urls: seq<string>, job: Result, bt: string, text: Text) {
    IsBuildOf(job, bt, text) && AreFirstPackages(urls, job.links, REQUIRED_PACKAGE_PREFIXES)
  }

  lemma {:induction false} FoundIsWanted(results: seq<Result>, wanted: Result -> bool)
    requires Find(results, wanted).Some?
    ensures wanted(Find(results, wanted).value)
    decreases results
  {
    if !wanted(results[0]) {
      if Find(results[0].results, wanted).Some? {
        FoundIsWanted(results[0].results, wanted);
      } else {
        FoundIsWanted(results[1..], wanted);
      }
    }
  }

  lemma FoundJobIsBuild(results: seq<Result>, bt: string, text: Text)
    requires FindAMDBuild(results, bt, text).Some?
    ensures IsBuildOf(FindAMDBuild(results, bt, text).value, bt, text)
  {
    hide IsBuildOf;
    FoundIsWanted(results, res => IsBuildOf(res, bt, text));
  }

  /** One turn of the loop over the candidates. */
  method ProbeOne(report: Option<seq<Result>>, bt: string, text: Text)
      returns (urls: Option<seq<string>>, error: ProbeError, ghost job: Option<Result>)
    ensures urls.Some? <==> Works(report, bt, text)
    ensures urls.Some? ==> && job.Some? && job == FindAMDBuild(report.value, bt, text)
                           && ArePackagesOf(urls.value, job.value, bt, text)
    ensures urls.None? ==> error == Failure(report, bt, text)
    ensures report.None? ==> error == ReportFailed
    ensures report.Some? && FindAMDBuild(report.value, bt, text).None? ==> error == NoBuild
    ensures report.Some? && FindAMDBuild(report.value, bt, text).Some? ==> error == MissingPackage
  {
    hide IsBuildOf, HasPackages, AreFirstPackages, FindAMDBuild;
    job, urls, error := None, None, ReportFailed;
    if report.None? {
      return;
    }
    var found := FindAMDBuild(report.value, bt, text);
    if found.None? {
      error := NoBuild;
      return;
    }
    job := found;
    FoundJobIsBuild(report.value, bt, text);
    PrefixesClash();
    urls := SelectPackageURLs(found.value.links, REQUIRED_PACKAGE_PREFIXES);
    error := MissingPackage;
  }

  /** Commits are probed in order until one works; `k` is its number. */
  method ProbeAll(shas: seq<string>, ref: string, answers: Answers, bt: string, text: Text)
      returns (urls: Option<seq<string>>, lastErr: Option<ProbeError>, k: nat, ghost job: Option<Result>)
    ensures urls.Some? ==>
              && k < |shas| && Works(answers.report(k, ref, shas[k]), bt, text)
              && (forall l :: 0 <= l < k ==> !Works(answers.report(l, ref, shas[l]), bt, text))
              && job == FindAMDBuild(answers.report(k, ref, shas[k]).value, bt, text)
              && job.Some? && ArePackagesOf(urls.value, job.value, bt, text)
    ensures urls.None? ==> forall l :: 0 <= l < |shas| ==> !Works(answers.report(l, ref, shas[l]), bt, text)
    ensures urls.None? && shas != [] ==>
              lastErr == Some(Failure(answers.report(|shas| - 1, ref, shas[|shas| - 1]), bt, text))
  {
    hide Works, ArePackagesOf, Failure, FindAMDBuild;
    urls, lastErr, k, job := None, None, 0, None;
    while k < |shas|
      invariant k <= |shas| && urls.None?
      invariant forall l :: 0 <= l < k ==> !Works(answers.report(l, ref, shas[l]), bt, text)
      invariant k > 0 ==> lastErr == Some(Failure(answers.report(k - 1, ref, shas[k - 1]), bt, text))
    {
      var error;
      urls, error, job := ProbeOne(answers.report(k, ref, shas[k]), bt, text);
      if urls.Some? {
        return;
      }
      lastErr := Some(error);
      k := k + 1;
    }
  }

  // ---------------------------------------------------------------------------------------
  // The resolver
  // ---------------------------------------------------------------------------------------

  datatype BuildSpec = BuildSpec(version: string, downloadURLs: seq<string>)

  datatype CacheEntry = CacheEntry(spec: BuildSpec, expiresAt: int)

  /** History of a cache entry: for what, and from which job, it was made. */
  datatype Origin = Origin(version: string, bt: string, job: Result)

  function Key(version: string, bt: string): string { version + "/" + bt }

  /** No build type has a slash in its name, so versions and build types share no keys. */
  lemma KeyIsInjective(version: string, bt: string, version': string, bt': string)
    requires '/' !in bt && '/' !in bt' && Key(version, bt) == Key(version', bt')
    ensures version == version' && bt == bt'
  {
    var key := Key(version, bt);
    assert key[|version|] == '/' && key[|version'|] == '/';
    LastSlash(version, bt, |version'|);
    LastSlash(version', bt', |version|);
    assert key[..|version|] == version && key[..|version'|] == version';
    assert key[|version| + 1..] == bt && key[|version'| + 1..] == bt';
  }

  lemma LastSlash(version: string, bt: string, i: nat)
    requires '/' !in bt && i < |Key(version, bt)| && Key(version, bt)[i] == '/'
    ensures i <= |version|
  {
  }

  predicate IsRelease(bt: string) { bt == "release" || bt == "" }

  /** A build for this version: the packages of one CI job for this build type. */
  ghost predicate IsSpecFor(spec: BuildSpec, version: string, bt: string, text: Text) {
    spec.version == version && exists job :: ArePackagesOf(spec.downloadURLs, job, bt, text)
  }

  /** It has the three packages, in the order of the prefixes, from three links of one job. */
  lemma SpecHasThreePackages(spec: BuildSpec, version: string, bt: string, text: Text)
    requires IsSpecFor(spec, version, bt, text)
    ensures |spec.downloadURLs| == 3 && NoDuplicates(spec.downloadURLs)
    ensures IsPackage(spec.downloadURLs[0], "clickhouse-common-static_")
    ensures IsPackage(spec.downloadURLs[1], "clickhouse-server_")
    ensures IsPackage(spec.downloadURLs[2], "clickhouse-client_")
  {
    hide IsBuildOf, Clash, IsPackage;
    var job :| ArePackagesOf(spec.downloadURLs, job, bt, text);
    PrefixesClash();
    PackagesAreDistinct(spec.downloadURLs, job.links, REQUIRED_PACKAGE_PREFIXES);
    forall i | 0 <= i < 3
      ensures IsPackage(spec.downloadURLs[i], REQUIRED_PACKAGE_PREFIXES[i])
    {
      assert IsFirstPackage(spec.downloadURLs[i], job.links, REQUIRED_PACKAGE_PREFIXES[i]);
    }
  }

  ghost predicate EntryOk(key: string, spec: BuildSpec, origin: Origin, text: Text) {
    && '/' !in origin.bt && key == Key(origin.version, origin.bt) && spec.version == origin.version
    && ArePackagesOf(spec.downloadURLs, origin.job, origin.bt, text)
  }

  /**
   * Not from the cache: the build of the first candidate that works; if none does, the error of the
   * last one.
   */
  ghost predicate IsFreshOutcome(r: Outcome<BuildSpec>, k: nat, version: string, answers: Answers, bt: string,
                                 text: Text) {
    var ref := BranchRef(version);
    if ref.None? then r == Err(BadVersion)
    else
      var shas := CandidatesFor(version, ref.value, answers);
      if shas.Err? then r == Err(shas.error)
      else IsFirstBuild(r, k, shas.value, ref.value, answers, bt, text)
  }

  ghost predicate IsFirstBuild(r: Outcome<BuildSpec>, k: nat, shas: seq<string>, ref: string, answers: Answers,
                               bt: string, text: Text) {
    if r.Ok? then
      && k < |shas| && Works(answers.report(k, ref, shas[k]), bt, text)
      && (forall l :: 0 <= l < k ==> !Works(answers.report(l, ref, shas[l]), bt, text))
      && var job := FindAMDBuild(answers.report(k, ref, shas[k]).value, bt, text).value;
         AreFirstPackages(r.value.downloadURLs, job.links, REQUIRED_PACKAGE_PREFIXES)
    else
      && shas != [] && r == Err(Probe(Failure(answers.report(|shas| - 1, ref, shas[|shas| - 1]), bt, text)))
      && forall l :: 0 <= l < |shas| ==> !Works(answers.report(l, ref, shas[l]), bt, text)
  }

  /** A call of `store`, by whatever call of `Resolve`. */
  datatype Stored = Stored(spec: BuildSpec, origin: Origin, now: int) {
    function StoreKey(): string { Key(origin.version, origin.bt) }
  }

  /** The cache after these calls. */
  function WithStores(cache: map<string, CacheEntry>, ttl: nat, stores: seq<Stored>): map<string, CacheEntry> {
    if stores == [] then cache
    else
      var front, last := stores[..|stores| - 1], stores[|stores| - 1];
      WithStores(cache, ttl, front)[last.StoreKey() := CacheEntry(last.spec, last.now + ttl)]
  }

  /** `resolver`. */
  class CachingResolver {
    const ttl: nat
    const text: Text
    var cache: map<string, CacheEntry>
    ghost var origins: map<string, Origin>

    ghost predicate Valid()
      reads this
    {
      && cache.Keys == origins.Keys
      && forall key :: key in cache ==> EntryOk(key, cache[key].spec, origins[key], text)
    }

    constructor (ttl: nat, text: Text)
      ensures Valid() && cache == map[] && this.ttl == ttl && this.text == text
    {
      this.ttl, this.text, cache, origins := ttl, text, map[], map[];
    }

    /** `cached`: a hit is for the same version and build type. */
    method Cached(version: string, bt: string, now: int) returns (spec: Option<BuildSpec>)
      requires Valid() && '/' !in bt
      ensures var key := Key(version, bt);
              spec == if key in cache && now <= cache[key].expiresAt then Some(cache[key].spec) else None
      ensures spec.Some? ==> IsSpecFor(spec.value, version, bt, text)
    {
      hide ArePackagesOf;
      var key := Key(version, bt);
      if key !in cache || now > cache[key].expiresAt {
        return None;
      }
      assert EntryOk(key, cache[key].spec, origins[key], text);
      KeyIsInjective(version, bt, origins[key].version, origins[key].bt);
      return Some(cache[key].spec);
    }

    /** `store`. */
    method Store(version: string, bt: string, spec: BuildSpec, now: int, ghost job: Result)
      requires Valid() && '/' !in bt && spec.version == version && ArePackagesOf(spec.downloadURLs, job, bt, text)
      modifies this
      ensures Valid()
      ensures cache == old(cache)[Key(version, bt) := CacheEntry(spec, now + ttl)]
    {
      hide ArePackagesOf, Key;
      var key := Key(version, bt);
      cache := cache[key := CacheEntry(spec, now + ttl)];
      origins := origins[key := Origin(version, bt, job)];
    }

    /** Other calls of `Resolve` that store between the critical sections of one call. */
    method OthersStore(stores: seq<Stored>)
      requires Valid() && forall i :: 0 <= i < |stores| ==> IsProper(stores[i])
      modifies this
      ensures Valid() && cache == WithStores(old(cache), ttl, stores)
    {
      hide IsProper, EntryOk;
      for i := 0 to |stores|
        invariant Valid() && cache == WithStores(old(cache), ttl, stores[..i])
      {
        var other := stores[i];
        assert stores[..i + 1][..i] == stores[..i];
        StoreOther(other);
      }
      assert stores[..|stores|] == stores;
    }

    ghost predicate IsProper(other: Stored) {
      EntryOk(other.StoreKey(), other.spec, other.origin, text)
    }

    method StoreOther(other: Stored)
      requires Valid() && IsProper(other)
      modifies this
      ensures Valid() && cache == old(cache)[other.StoreKey() := CacheEntry(other.spec, other.now + ttl)]
    {
      Store(other.origin.version, other.origin.bt, other.spec, other.now, other.origin.job);
    }

    /**
     * What is found is stored at time `later`. The lock is free while candidates are probed: `others`
     * is what other calls store meanwhile. Only builds of the version and build type asked for come
     * back. The tagged commit of a fully qualified version is taken if it works, and then it does
     * not matter whether the recent commits can be listed.
     */
    method Resolve(version: string, bt: string, now: int, answers: Answers, others: seq<Stored>, later: int)
        returns (r: Outcome<BuildSpec>, ghost k: nat)
      requires Valid() && '/' !in bt && forall i :: 0 <= i < |others| ==> IsProper(others[i])
      modifies this
      ensures Valid()
      ensures r.Ok? ==> IsSpecFor(r.value, version, bt, text)
      ensures bt == "release" || bt == "" ==> r == Err(ReleaseBuild) && cache == old(cache)
      ensures IsFullVersion(version) ==> r != Err(BadVersion)
      ensures var key := version + "/" + bt;
              bt != "release" && bt != "" ==>
                if key in old(cache) && now <= old(cache)[key].expiresAt then
                  r == Ok(old(cache)[key].spec) && cache == old(cache)
                else
                  && IsFreshOutcome(r, k, version, answers, bt, text)
                  && (IsFullVersion(version) && answers.commit("v" + version + "-stable").Some? ==>
                        && r != Err(ListingFailed) && r != Err(NoCommits) && BranchRef(version).Some?
                        && var sha := answers.commit("v" + version + "-stable").value;
                           Works(answers.report(0, BranchRef(version).value, sha), bt, text) ==> r.Ok? && k == 0)
                  && var meanwhile := WithStores(old(cache), ttl, others);
                     cache == if r.Ok? then meanwhile[key := CacheEntry(r.value, later + ttl)] else meanwhile
    {
      if IsFullVersion(version) {
        FullVersionHasBranch(version);
      }
      hide BranchRef, IsSpecFor, ArePackagesOf, Works, Failure, CandidatesFor, FindAMDBuild, WithStores, IsProper;
      hide IsFullVersion;
      k := 0;
      if IsRelease(bt) {
        return Err(ReleaseBuild), k;
      }
      var hit := Cached(version, bt, now);
      if hit.Some? {
        return Ok(hit.value), k;
      }
      OthersStore(others);
      var ref := BranchRef(version);
      if ref.None? {
        return Err(BadVersion), k;
      }
      var shas := CandidateSHAs(version, ref.value, answers);
      if shas.Err? {
        return Err(shas.error), k;
      }
      var urls, lastErr;
      ghost var job;
      urls, lastErr, k, job := ProbeAll(shas.value, ref.value, answers, bt, text);
      if urls.None? {
        return Err(Probe(lastErr.value)), k;
      }
      var spec := BuildSpec(version, urls.value);
      SpecOfJob(spec, version, job.value, bt, text);
      Store(version, bt, spec, later, job.value);
      r := Ok(spec);
    }
  }

  lemma SpecOfJob(spec: BuildSpec, version: string, job: Result, bt: string, text: Text)
    requires spec.version == version && ArePackagesOf(spec.downloadURLs, job, bt, text)
    ensures IsSpecFor(spec, version, bt, text)
    ensures AreFirstPackages(spec.downloadURLs, job.links, REQUIRED_PACKAGE_PREFIXES)
  {
  }
}
