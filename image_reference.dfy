/**
 * Image references as the updater reads and writes them
 * (docker-updater.py: `parse_image_string`, `get_printable_image_name`,
 * `build_image_string_with_digest`).
 *
 * Parsing is a fixed pipeline over the text: strip a trailing
 * `@sha256:<64 hex>` (the digest), then a trailing `:<tag>`, then split off
 * a registry host at the first `/`, then split the remaining path into user
 * and repository. It never fails.
 */
module ImageReference {
  import opened Wrappers
  import opened Digests

  /** The namespace assumed for a path without `/`, and left out when printing. */
  const DefaultUser: string := "library"

  /** The dictionary returned by `parse_image_string`. */
  datatype ImageInfo = ImageInfo(
    registry: Option<string>,
    user: string,
    repo: string,
    tag: string,       // "" stands for "latest"
    digest: Option<string>,  // kept with its leading '@'
    raw: string)

  // ---------------------------------------------------------------------
  // Text scanning

  /** Position of the first `c` in `s`. */
  function IndexOf(s: string, c: char): (r: Option<nat>)
    ensures r.Some? ==> r.value < |s| && s[r.value] == c && c !in s[..r.value]
    ensures r.None? ==> c !in s
  {
    if s == [] then None
    else if s[0] == c then Some(0)
    else
      assert s == [s[0]] + s[1..];
      match IndexOf(s[1..], c)
      case None => None
      case Some(i) =>
        assert s[..i + 1] == [s[0]] + s[1..][..i];
        Some(i + 1)
  }

  /** Python's `s.split(c, 1)`: the text before the first `c`, and the text after it if there is one. */
  function SplitOnce(s: string, c: char): (parts: (string, Option<string>))
    ensures parts.1.None? ==> c !in s && parts.0 == s
    ensures parts.1.Some? ==> c !in parts.0 && s == parts.0 + [c] + parts.1.value
  {
    match IndexOf(s, c)
    case None => (s, None)
    case Some(i) =>
      assert s == s[..i] + [c] + s[i + 1..];
      (s[..i], Some(s[i + 1..]))
  }

  /** The first-occurrence split is the only one whose head is free of `c`. */
  lemma SplitOnceOfJoin(head: string, c: char, tail: string)
    requires c !in head
    ensures SplitOnce(head + [c] + tail, c) == (head, Some(tail))
  {
    var s := head + [c] + tail;
    assert s[|head|] == c;
    assert forall j :: 0 <= j < |head| ==> s[j] == head[j];
    assert forall j :: |head| < j <= |s| ==> s[..j][|head|] == c;
    assert IndexOf(s, c) == Some(|head|);
    assert s[..|head|] == head;
    assert s[|head| + 1..] == tail;
  }

  // ---------------------------------------------------------------------
  // Step 1: the digest, `(@sha256:[0-9a-f]{64})$`

  /** A digest as it appears inside a reference: `@` followed by a digest. */
  predicate IsDigestRef(x: string) {
    |x| == 72 && x[0] == '@' && IsDigest(x[1..])
  }

  /**
   * The text before a trailing digest reference, and that reference. As with
   * Python's `$`, the reference may also be followed by one final newline,
   * which is then dropped from both parts.
   */
  function SplitDigest(s: string): (r: (string, Option<string>))
    ensures r.1.None? ==> r.0 == s
    ensures r.1.Some? ==> IsDigestRef(r.1.value)
    ensures r.1.Some? ==> s == r.0 + r.1.value || s == r.0 + r.1.value + "\n"
  {
    if |s| >= 72 && IsDigestRef(s[|s| - 72..]) then
      assert s == s[..|s| - 72] + s[|s| - 72..];
      (s[..|s| - 72], Some(s[|s| - 72..]))
    else if |s| >= 73 && s[|s| - 1] == '\n' && IsDigestRef(s[|s| - 73..|s| - 1]) then
      assert s == s[..|s| - 73] + s[|s| - 73..|s| - 1] + "\n";
      (s[..|s| - 73], Some(s[|s| - 73..|s| - 1]))
    else (s, None)
  }

  /** A reference ending in a digest, with or without a final newline, splits there. */
  lemma SplitDigestOfJoin(rest: string, dref: string)
    requires IsDigestRef(dref)
    ensures SplitDigest(rest + dref) == (rest, Some(dref))
    ensures SplitDigest(rest + dref + "\n") == (rest, Some(dref))
  {
    var s := rest + dref;
    assert s[|s| - 72..] == dref;
    assert s[..|s| - 72] == rest;
    var t := rest + dref + "\n";
    var tail := t[|t| - 72..];
    assert tail[71] == '\n';
    assert tail[1..][70] == '\n';
    assert !IsDigestRef(tail);
    assert t[|t| - 73..|t| - 1] == dref;
    assert t[..|t| - 73] == rest;
  }

  // ---------------------------------------------------------------------
  // Step 2: the tag, `:([^/]+)$`

  /** `:([^/]+)$` matches at `k`: a colon followed by a non-empty, slash-free rest. */
  predicate TagColonAt(s: string, k: int) {
    0 <= k < |s| - 1 && s[k] == ':' && '/' !in s[k + 1..]
  }

  /** The tag pattern matches nowhere in `s`. */
  predicate NoTagColon(s: string) {
    forall k :: 0 <= k < |s| ==> !TagColonAt(s, k)
  }

  /** If `s` has a colon at `k`, a `/` follows it somewhere. */
  predicate ShadowedAt(s: string, k: int)
    requires 0 <= k < |s|
  {
    s[k] == ':' ==> '/' in s[k + 1..]
  }

  /** Every colon of `s` is followed, somewhere later, by a `/`. */
  predicate ColonsShadowed(s: string) {
    forall k :: 0 <= k < |s| ==> ShadowedAt(s, k)
  }

  /** `re.search` scans start positions left to right: the leftmost match at or after `from`. */
  function FirstTagColon(s: string, from: nat): (r: Option<nat>)
    requires from <= |s|
    ensures r.Some? ==> from <= r.value && TagColonAt(s, r.value)
    ensures r.Some? ==> forall k :: from <= k < r.value ==> !TagColonAt(s, k)
    ensures r.None? ==> forall k :: from <= k ==> !TagColonAt(s, k)
    decreases |s| - from
  {
    if from == |s| then None
    else if TagColonAt(s, from) then Some(from)
    else FirstTagColon(s, from + 1)
  }

  /** Everything before the leftmost tag match has each of its colons followed by a `/`. */
  lemma ShadowedBeforeFirstMatch(s: string, j: nat)
    requires TagColonAt(s, j)
    requires forall k :: 0 <= k < j ==> !TagColonAt(s, k)
    ensures ColonsShadowed(s[..j])
  {
    forall k | 0 <= k < j
      ensures ShadowedAt(s[..j], k)
    {
      if s[k] == ':' {
        assert !TagColonAt(s, k);
        assert s[k + 1..] == s[..j][k + 1..] + s[j..];
        assert s[j..] == [':'] + s[j + 1..];
      }
    }
  }

  /** The text before the tag, and the tag ("" when the pattern does not match). */
  function SplitTag(s: string): (r: (string, string))
    ensures r.1 == "" ==> r.0 == s && NoTagColon(s)
    ensures r.1 != "" ==> s == r.0 + ":" + r.1 && '/' !in r.1 && ColonsShadowed(r.0)
  {
    match FirstTagColon(s, 0)
    case None => (s, "")
    case Some(j) =>
      ShadowedBeforeFirstMatch(s, j);
      assert s == s[..j] + ":" + s[j + 1..];
      (s[..j], s[j + 1..])
  }

  /** `:tag` when the tag is non-empty, nothing otherwise. */
  function TagSuffix(tag: string): string {
    if tag != "" then ":" + tag else ""
  }

  /** What may stand before a tag so that splitting gives that tag back. */
  predicate TagSplittable(base: string, tag: string) {
    if tag == "" then NoTagColon(base) else ColonsShadowed(base) && '/' !in tag
  }

  /** In `base:tag`, no colon of a shadowed `base` starts a tag match. */
  lemma NoTagColonBefore(base: string, tag: string)
    requires ColonsShadowed(base)
    ensures forall k :: 0 <= k < |base| ==> !TagColonAt(base + ":" + tag, k)
  {
    var s := base + ":" + tag;
    forall k | 0 <= k < |base|
      ensures !TagColonAt(s, k)
    {
      if s[k] == ':' {
        assert ShadowedAt(base, k);
        assert s[k + 1..] == base[k + 1..] + ":" + tag;
      }
    }
  }

  /** Splitting the tag off undoes appending it: the inverse of `TagSuffix`. */
  lemma SplitTagOfJoin(base: string, tag: string)
    requires TagSplittable(base, tag)
    ensures SplitTag(base + TagSuffix(tag)) == (base, tag)
  {
    if tag == "" {
      assert base + TagSuffix(tag) == base;
      assert FirstTagColon(base, 0).None?;
    } else {
      assert base + TagSuffix(tag) == base + ":" + tag;
      SplitNonEmptyTag(base, tag);
    }
  }

  lemma SplitNonEmptyTag(base: string, tag: string)
    requires tag != "" && ColonsShadowed(base) && '/' !in tag
    ensures SplitTag(base + ":" + tag) == (base, tag)
  {
    var s := base + ":" + tag;
    assert s[|base| + 1..] == tag;
    assert TagColonAt(s, |base|);
    NoTagColonBefore(base, tag);
    assert FirstTagColon(s, 0) == Some(|base|);
    assert s[..|base|] == base;
  }

  /** The result of the tag step always satisfies `TagSplittable`. */
  lemma SplitTagSplittable(s: string)
    ensures TagSplittable(SplitTag(s).0, SplitTag(s).1)
  {
  }

  // ---------------------------------------------------------------------
  // Step 3: the registry host, and step 4: user and repository

  /** The registry heuristic for the first path segment: it has a `.` or a `:` and is not `localhost`. */
  predicate LooksLikeRegistry(head: string) {
    ('.' in head || ':' in head) && head != "localhost"
  }

  /** The registry host, if the first segment looks like one, and the repository path after it. */
  function SplitRegistry(base: string): (r: (Option<string>, string))
    ensures r.0.Some? ==> base == r.0.value + "/" + r.1
    ensures r.0.Some? ==> '/' !in r.0.value && LooksLikeRegistry(r.0.value)
    ensures r.0.None? ==> r.1 == base
  {
    var parts := SplitOnce(base, '/');
    if parts.1.Some? && ('.' in parts.0 || ':' in parts.0) && parts.0 != "localhost" then
      (Some(parts.0), parts.1.value)
    else
      (None, base)
  }

  /** The user (`library` when the path has no `/`) and the repository, which may contain `/`. */
  function SplitUserRepo(path: string): (r: (string, string))
    ensures '/' !in r.0
    ensures '/' in path ==> path == r.0 + "/" + r.1
    ensures '/' !in path ==> r.0 == DefaultUser && r.1 == path
  {
    if '/' in path then
      var parts := SplitOnce(path, '/');
      (parts.0, parts.1.value)
    else
      (DefaultUser, path)
  }

  // ---------------------------------------------------------------------
  // The parser and its intermediate texts

  /** The reference without its digest. */
  function NoDigest(s: string): string {
    SplitDigest(s).0
  }

  /** The reference without its digest and tag. */
  function BaseOf(s: string): string {
    SplitTag(NoDigest(s)).0
  }

  /** The base without its registry host: `[user/]repo`. */
  function RepoPathOf(s: string): string {
    SplitRegistry(BaseOf(s)).1
  }

  /** `parse_image_string`. */
  function Parse(s: string): (info: ImageInfo)
    ensures info.raw == s
    ensures info.digest.Some? ==> IsDigestRef(info.digest.value)
    ensures '/' !in info.tag && '/' !in info.user
  {
    var userRepo := SplitUserRepo(RepoPathOf(s));
    ImageInfo(SplitRegistry(BaseOf(s)).0, userRepo.0, userRepo.1, SplitTag(NoDigest(s)).1, SplitDigest(s).1, s)
  }

  // ---------------------------------------------------------------------
  // Re-assembly

  /** `registry/` when there is a (non-empty) registry. */
  function RegistryPrefix(registry: Option<string>): string {
    if registry.Some? && registry.value != "" then registry.value + "/" else ""
  }

  /** `user/` unless the user is the default `library`. */
  function UserPrefix(user: string): string {
    if user != DefaultUser then user + "/" else ""
  }

  /** `get_printable_image_name`: `[user/]repo[:tag]`; its registry argument is not used. */
  function Printable(registry: Option<string>, user: string, repo: string, tag: string): string {
    UserPrefix(user) + repo + TagSuffix(tag)
  }

  /** `build_image_string_with_digest`: `[registry/][user/]repo[:tag]@newDigest`. */
  function Build(info: ImageInfo, newDigest: string): string {
    RegistryPrefix(info.registry) + UserPrefix(info.user) + info.repo + TagSuffix(info.tag) + "@" + newDigest
  }

  // ---------------------------------------------------------------------
  // Properties of the parser

  /**
   * Parsing splits the reference in order: the digest (kept with its `@`)
   * from the end, then the tag, and the pieces put back together give the
   * input, save for a final newline after a digest, which is lost.
   */
  lemma ParseSplitsInOrder(s: string)
    ensures Parse(s).raw == s
    ensures NoDigest(s) == BaseOf(s) + TagSuffix(Parse(s).tag)
    ensures Parse(s).tag != "" ==> '/' !in Parse(s).tag
    ensures Parse(s).digest.None? ==> s == NoDigest(s)
    ensures Parse(s).digest.Some? ==> IsDigestRef(Parse(s).digest.value)
    ensures Parse(s).digest.Some? ==>
              s == NoDigest(s) + Parse(s).digest.value || s == NoDigest(s) + Parse(s).digest.value + "\n"
  {
    var digestStep := SplitDigest(s);
    var tagStep := SplitTag(digestStep.0);
    SplitsInOrder(s, digestStep.0, digestStep.1, tagStep.0, tagStep.1);
    assert Parse(s).tag == tagStep.1 && Parse(s).digest == digestStep.1;
  }

  lemma SplitsInOrder(s: string, noDigest: string, digest: Option<string>, base: string, tag: string)
    requires SplitDigest(s) == (noDigest, digest) && SplitTag(noDigest) == (base, tag)
    ensures noDigest == base + TagSuffix(tag) && (tag != "" ==> '/' !in tag)
    ensures digest.None? ==> s == noDigest
    ensures digest.Some? ==> IsDigestRef(digest.value)
    ensures digest.Some? ==> s == noDigest + digest.value || s == noDigest + digest.value + "\n"
  {
  }

  /**
   * The registry is set exactly when the base has a `/` and its first segment
   * has a `.` or `:` and is not `localhost`; the repository path is then the
   * text after that `/`, and otherwise the whole base.
   */
  lemma RegistryDetection(head: string, tail: string)
    requires '/' !in head
    ensures SplitRegistry(head + "/" + tail) ==
              if LooksLikeRegistry(head) then (Some(head), tail) else (None, head + "/" + tail)
  {
    SplitOnceOfJoin(head, '/', tail);
    assert head + "/" + tail == head + ['/'] + tail;
  }

  /**
   * A repository path without `/` gives user `library` and the whole path as
   * repository; otherwise the user is the text before the first `/` and the
   * repository everything after it.
   */
  lemma UserRepoSplit(user: string, repo: string)
    requires '/' !in user
    ensures SplitUserRepo(user + "/" + repo) == (user, repo)
  {
    SplitOnceOfJoin(user, '/', repo);
    assert user + "/" + repo == user + ['/'] + repo;
  }

  /** The registry prefix and the repository path make up the base. */
  lemma BaseFromRegistryAndPath(s: string)
    ensures RegistryPrefix(Parse(s).registry) + RepoPathOf(s) == BaseOf(s)
  {
    var parts := SplitRegistry(BaseOf(s));
    assert Parse(s).registry == parts.0 && RepoPathOf(s) == parts.1;
    if parts.0.Some? {
      assert parts.0.value != "";
    }
  }

  /** The user and the repository make up the repository path. */
  lemma PathFromUserAndRepo(s: string)
    ensures '/' in RepoPathOf(s) ==> RepoPathOf(s) == Parse(s).user + "/" + Parse(s).repo
    ensures '/' !in RepoPathOf(s) ==> Parse(s).user == DefaultUser && Parse(s).repo == RepoPathOf(s)
  {
  }

  /** Re-joining user and repository gives the path back unless the path spells out `library/`. */
  lemma {:induction false} RejoinUserRepo(path: string, user: string, repo: string)
    requires '/' in path ==> path == user + "/" + repo
    requires '/' !in path ==> user == DefaultUser && repo == path
    ensures UserPrefix(user) + repo == path <==> !(user == DefaultUser && '/' in path)
  {
    if user == DefaultUser && '/' in path {
      assert |UserPrefix(user) + repo| < |path|;
    }
  }

  /** The path keeps an explicit `library/` user segment, which building leaves out. */
  predicate ExplicitDefaultUser(s: string) {
    Parse(s).user == DefaultUser && '/' in RepoPathOf(s)
  }

  /**
   * Building with a new digest gives the reference without its old digest,
   * followed by `@` and the new digest, exactly when the path does not spell
   * out the default user `library/`.
   */
  lemma BuildAfterParse(s: string, newDigest: string)
    ensures Build(Parse(s), newDigest) == NoDigest(s) + "@" + newDigest <==> !ExplicitDefaultUser(s)
  {
    BaseFromRegistryAndPath(s);
    PathFromUserAndRepo(s);
    ParseSplitsInOrder(s);
    BuildOfParts(Parse(s), RepoPathOf(s), NoDigest(s), newDigest);
  }

  lemma BuildOfParts(info: ImageInfo, path: string, noDigest: string, newDigest: string)
    requires '/' in path ==> path == info.user + "/" + info.repo
    requires '/' !in path ==> info.user == DefaultUser && info.repo == path
    requires noDigest == RegistryPrefix(info.registry) + path + TagSuffix(info.tag)
    ensures Build(info, newDigest) == noDigest + "@" + newDigest <==> !(info.user == DefaultUser && '/' in path)
  {
    RejoinUserRepo(path, info.user, info.repo);
    var rebuilt := RegistryPrefix(info.registry) + UserPrefix(info.user) + info.repo;
    if info.user == DefaultUser && '/' in path {
      assert |rebuilt| < |RegistryPrefix(info.registry) + path|;
    } else {
      assert rebuilt == RegistryPrefix(info.registry) + (UserPrefix(info.user) + info.repo);
    }
  }

  /** The printable name is the reference with its registry prefix and its digest taken off. */
  lemma PrintableAfterParse(s: string)
    requires !ExplicitDefaultUser(s)
    ensures var info := Parse(s);
      RegistryPrefix(info.registry) + Printable(info.registry, info.user, info.repo, info.tag) == NoDigest(s)
  {
    BaseFromRegistryAndPath(s);
    PathFromUserAndRepo(s);
    ParseSplitsInOrder(s);
    PrintableOfParts(Parse(s), RepoPathOf(s), NoDigest(s));
  }

  lemma PrintableOfParts(info: ImageInfo, path: string, noDigest: string)
    requires '/' in path ==> path == info.user + "/" + info.repo
    requires '/' !in path ==> info.user == DefaultUser && info.repo == path
    requires noDigest == RegistryPrefix(info.registry) + path + TagSuffix(info.tag)
    requires !(info.user == DefaultUser && '/' in path)
    ensures RegistryPrefix(info.registry) + Printable(info.registry, info.user, info.repo, info.tag) == noDigest
  {
    RejoinUserRepo(path, info.user, info.repo);
  }

  /** The printable name does not depend on the registry, and building is the registry prefix, the printable name and the new digest. */
  lemma PrintableOmitsRegistry(info: ImageInfo, otherRegistry: Option<string>, newDigest: string)
    ensures Printable(info.registry, info.user, info.repo, info.tag) == Printable(otherRegistry, info.user, info.repo, info.tag)
    ensures Build(info, newDigest)
         == RegistryPrefix(info.registry) + Printable(info.registry, info.user, info.repo, info.tag) + "@" + newDigest
  {
  }

  // ---------------------------------------------------------------------
  // Re-parsing a built reference

  /** A repository with a `/` under the default user: building loses the `library/` segment that kept it apart. */
  predicate NestedUnderDefaultUser(info: ImageInfo) {
    info.user == DefaultUser && '/' in info.repo
  }

  /** Taking a middle part out after a `/` keeps every colon followed by a `/`. */
  lemma ShadowedWithoutMiddle(front: string, middle: string, back: string)
    requires front == [] || front[|front| - 1] == '/'
    requires ColonsShadowed(front + middle + back)
    ensures ColonsShadowed(front + back)
  {
    var long := front + middle + back;
    var short := front + back;
    forall k | 0 <= k < |short|
      ensures ShadowedAt(short, k)
    {
      if short[k] == ':' {
        if k < |front| {
          assert short[k + 1..][|front| - k - 2] == '/';
        } else {
          assert ShadowedAt(long, k + |middle|);
          assert short[k + 1..] == long[k + |middle| + 1..];
        }
      }
    }
  }

  /** Taking a middle part out after a `/` creates no tag match. */
  lemma NoTagColonWithoutMiddle(front: string, middle: string, back: string)
    requires front == [] || front[|front| - 1] == '/'
    requires NoTagColon(front + middle + back)
    ensures NoTagColon(front + back)
  {
    var long := front + middle + back;
    var short := front + back;
    forall k | 0 <= k < |short| - 1 && short[k] == ':'
      ensures '/' in short[k + 1..]
    {
      if k < |front| {
        assert short[k + 1..][|front| - k - 2] == '/';
      } else {
        assert !TagColonAt(long, k + |middle|);
        assert short[k + 1..] == long[k + |middle| + 1..];
      }
    }
  }

  /** The tag step still finds the original tag after `library/` is dropped from the base. */
  lemma TagSplittableWithoutMiddle(front: string, middle: string, back: string, tag: string)
    requires front == [] || front[|front| - 1] == '/'
    requires TagSplittable(front + middle + back, tag)
    ensures TagSplittable(front + back, tag)
  {
    if tag == "" {
      NoTagColonWithoutMiddle(front, middle, back);
    } else {
      ShadowedWithoutMiddle(front, middle, back);
    }
  }

  /** A base without `/` has no registry and is its own repository path. */
  lemma NoSlashNoRegistry(path: string)
    requires '/' !in path
    ensures SplitRegistry(path) == (None, path)
  {
  }

  /** `Parse` read off the results of its four steps. */
  lemma ParseFromSteps(s: string, noDigest: string, digest: Option<string>, base: string, tag: string,
                       registry: Option<string>, path: string, user: string, repo: string)
    requires SplitDigest(s) == (noDigest, digest)
    requires SplitTag(noDigest) == (base, tag)
    requires SplitRegistry(base) == (registry, path)
    requires SplitUserRepo(path) == (user, repo)
    ensures Parse(s) == ImageInfo(registry, user, repo, tag, digest, s)
  {
  }

  lemma TagStepOfParse(s: string)
    ensures SplitTag(NoDigest(s)) == (BaseOf(s), Parse(s).tag)
    ensures TagSplittable(BaseOf(s), Parse(s).tag)
  {
    SplitTagSplittable(NoDigest(s));
  }

  lemma RegistryStepOfParse(s: string)
    ensures SplitRegistry(BaseOf(s)) == (Parse(s).registry, RepoPathOf(s))
  {
  }

  lemma UserStepOfParse(s: string)
    ensures SplitUserRepo(RepoPathOf(s)) == (Parse(s).user, Parse(s).repo)
  {
  }

  /** The registry prefix followed by the repository path is the base. */
  lemma FrontAndPath(info: ImageInfo, base: string, path: string)
    requires SplitRegistry(base) == (info.registry, path)
    ensures RegistryPrefix(info.registry) + path == base
    ensures RegistryPrefix(info.registry) == [] || RegistryPrefix(info.registry)[|RegistryPrefix(info.registry)| - 1] == '/'
  {
    if info.registry.Some? { assert info.registry.value != ""; }
  }

  /** Building puts the digest reference after the rebuilt base and the tag. */
  lemma DigestStepOfBuild(info: ImageInfo, newDigest: string)
    requires IsDigest(newDigest)
    ensures var rebuilt := RegistryPrefix(info.registry) + UserPrefix(info.user) + info.repo;
      SplitDigest(Build(info, newDigest)) == (rebuilt + TagSuffix(info.tag), Some("@" + newDigest))
  {
    var dref := "@" + newDigest;
    assert IsDigestRef(dref) by { assert dref[1..] == newDigest; }
    var rest := RegistryPrefix(info.registry) + UserPrefix(info.user) + info.repo + TagSuffix(info.tag);
    assert Build(info, newDigest) == rest + dref;
    SplitDigestOfJoin(rest, dref);
  }

  /** Putting the registry prefix back in front of a repository path: the registry step finds it again. */
  lemma RegistryOfRebuilt(registry: Option<string>, path: string)
    requires registry.Some? ==> '/' !in registry.value && LooksLikeRegistry(registry.value)
    requires registry.None? ==> SplitRegistry(path) == (None, path)
    ensures SplitRegistry(RegistryPrefix(registry) + path) == (registry, path)
  {
    if registry.Some? {
      assert registry.value != "";
      assert RegistryPrefix(registry) + path == registry.value + "/" + path;
      RegistryDetection(registry.value, path);
    } else {
      assert RegistryPrefix(registry) + path == path;
    }
  }

  /** The user step on a rebuilt repository path gives back user and repository. */
  lemma UserStepOfBuild(info: ImageInfo, path: string)
    requires SplitUserRepo(path) == (info.user, info.repo)
    requires !NestedUnderDefaultUser(info)
    ensures SplitUserRepo(UserPrefix(info.user) + info.repo) == (info.user, info.repo)
  {
    if info.user == DefaultUser {
      assert UserPrefix(info.user) + info.repo == info.repo;
    } else {
      assert UserPrefix(info.user) + info.repo == info.user + "/" + info.repo;
      UserRepoSplit(info.user, info.repo);
    }
  }

  /** The tag and registry steps on a rebuilt base that lost its explicit `library/` segment. */
  lemma StepsOfBuildDroppingDefaultUser(info: ImageInfo, base: string, path: string)
    requires TagSplittable(base, info.tag)
    requires SplitRegistry(base) == (info.registry, path)
    requires path == DefaultUser + "/" + info.repo && '/' !in info.repo
    ensures SplitTag(RegistryPrefix(info.registry) + info.repo + TagSuffix(info.tag))
         == (RegistryPrefix(info.registry) + info.repo, info.tag)
    ensures SplitRegistry(RegistryPrefix(info.registry) + info.repo) == (info.registry, info.repo)
  {
    var front := RegistryPrefix(info.registry);
    FrontAndPath(info, base, path);
    assert base == front + (DefaultUser + "/") + info.repo;
    TagSplittableWithoutMiddle(front, DefaultUser + "/", info.repo, info.tag);
    SplitTagOfJoin(front + info.repo, info.tag);
    if info.registry.None? {
      NoSlashNoRegistry(info.repo);
    }
    RegistryOfRebuilt(info.registry, info.repo);
  }

  /**
   * Each parsing step applied to a built reference gives back the field it
   * produced the first time, when the repository is not nested under the
   * default user.
   */
  lemma StepsOfBuild(info: ImageInfo, base: string, path: string, rebuilt: string)
    requires TagSplittable(base, info.tag)
    requires SplitRegistry(base) == (info.registry, path)
    requires SplitUserRepo(path) == (info.user, info.repo)
    requires !NestedUnderDefaultUser(info)
    requires rebuilt == RegistryPrefix(info.registry) + UserPrefix(info.user) + info.repo
    ensures SplitTag(rebuilt + TagSuffix(info.tag)) == (rebuilt, info.tag)
    ensures SplitRegistry(rebuilt) == (info.registry, UserPrefix(info.user) + info.repo)
  {
    var front, user := RegistryPrefix(info.registry), UserPrefix(info.user);
    RejoinUserRepo(path, info.user, info.repo);
    if info.user == DefaultUser && '/' in path {
      assert user + info.repo == info.repo;
      assert rebuilt == front + info.repo;
      StepsOfBuildDroppingDefaultUser(info, base, path);
    } else {
      FrontAndPath(info, base, path);
      JoinInOrder(front, user, info.repo, path, base);
      SplitTagOfJoin(base, info.tag);
    }
  }

  /** Re-joining the registry prefix, the user prefix and the repository. */
  lemma JoinInOrder(front: string, user: string, repo: string, path: string, base: string)
    requires user + repo == path && front + path == base
    ensures front + user + repo == base
  {
    assert front + user + repo == front + (user + repo);
  }

  /**
   * Re-parsing a built reference recovers registry, user, repository and tag,
   * and finds the new digest, unless the repository is nested under an
   * explicit `library/` user.
   */
  lemma ParseAfterBuild(s: string, newDigest: string)
    requires IsDigest(newDigest)
    requires !NestedUnderDefaultUser(Parse(s))
    ensures var info := Parse(s);
      var again := Parse(Build(info, newDigest));
      again.registry == info.registry && again.user == info.user && again.repo == info.repo
      && again.tag == info.tag && again.digest == Some("@" + newDigest)
  {
    var info := Parse(s);
    TagStepOfParse(s);
    RegistryStepOfParse(s);
    UserStepOfParse(s);
    var rebuilt := RegistryPrefix(info.registry) + UserPrefix(info.user) + info.repo;
    DigestStepOfBuild(info, newDigest);
    StepsOfBuild(info, BaseOf(s), RepoPathOf(s), rebuilt);
    UserStepOfBuild(info, RepoPathOf(s));
    ParseFromSteps(Build(info, newDigest), rebuilt + TagSuffix(info.tag), Some("@" + newDigest), rebuilt, info.tag,
                   info.registry, UserPrefix(info.user) + info.repo, info.user, info.repo);
  }

  /** Every digest reference has the colon of `sha256:` at position 7. */
  lemma DigestRefColon(x: string)
    ensures IsDigestRef(x) ==> x[7] == ':'
  {
    if IsDigestRef(x) {
      assert x[1..][..7] == "sha256:";
      assert x[1..][..7][6] == x[7];
    }
  }

  /** A text without `:` is not a digest reference. */
  lemma ColonFreeNotDigestRef(x: string)
    requires ':' !in x
    ensures !IsDigestRef(x)
  {
    DigestRefColon(x);
    if |x| == 72 {
      assert x[7] in x;
    }
  }

  /** A text without `:` has no digest. */
  lemma NoColonNoDigest(s: string)
    requires ':' !in s
    ensures SplitDigest(s) == (s, None)
  {
    if |s| >= 72 {
      ColonFreeNotDigestRef(s[|s| - 72..]);
    }
    if |s| >= 73 {
      ColonFreeNotDigestRef(s[|s| - 73..|s| - 1]);
    }
  }

  /** A text without `:` has no tag. */
  lemma NoColonNoTag(s: string)
    requires ':' !in s
    ensures SplitTag(s) == (s, "")
  {
    assert NoTagColon(s);
  }

  /** Joining two colon-free texts with `/` gives a colon-free text. */
  lemma ColonFreeJoin(front: string, back: string)
    requires ':' !in front && ':' !in back
    ensures ':' !in front + "/" + back
  {
    var s := front + "/" + back;
    forall k | 0 <= k < |s|
      ensures s[k] != ':'
    {
      if k < |front| {
        assert s[k] == front[k];
      } else if k > |front| {
        assert s[k] == back[k - |front| - 1];
      }
    }
  }

  /** `library/<host>/<app>` parses as repository `<host>/<app>` of the default user. */
  lemma ParseNestedUnderDefaultUser(host: string, app: string)
    requires '/' !in host && ':' !in host && '/' !in app && ':' !in app
    ensures var s := DefaultUser + "/" + (host + "/" + app);
      Parse(s) == ImageInfo(None, DefaultUser, host + "/" + app, "", None, s)
  {
    var repo := host + "/" + app;
    var s := DefaultUser + "/" + repo;
    ColonFreeJoin(host, app);
    ColonFreeJoin(DefaultUser, repo);
    NoColonNoDigest(s);
    NoColonNoTag(s);
    RegistryDetection(DefaultUser, repo);
    UserRepoSplit(DefaultUser, repo);
    ParseFromSteps(s, s, None, s, "", None, s, DefaultUser, repo);
  }

  /** `<host>/<app>@<digest>` parses with `<host>` as its registry. */
  lemma ParseHostedRepo(host: string, app: string, newDigest: string)
    requires LooksLikeRegistry(host) && '/' !in host && ':' !in host && '/' !in app && ':' !in app
    requires IsDigest(newDigest)
    ensures var s := host + "/" + app + ("@" + newDigest);
      Parse(s) == ImageInfo(Some(host), DefaultUser, app, "", Some("@" + newDigest), s)
  {
    var repo := host + "/" + app;
    var dref := "@" + newDigest;
    assert IsDigestRef(dref) by { assert dref[1..] == newDigest; }
    SplitDigestOfJoin(repo, dref);
    NoColonNoTag(repo);
    RegistryDetection(host, app);
    ParseFromSteps(repo + dref, repo, Some(dref), repo, "", Some(host), app, DefaultUser, app);
  }

  /**
   * Why the side condition is needed: `library/<host>/<app>` names
   * repository `<host>/<app>` of the default user
   * (`ParseNestedUnderDefaultUser`), but its pinned form
   * `<host>/<app>@<digest>` re-parses with `<host>` as its registry and
   * `<app>` as its repository.
   */
  lemma NestedUnderDefaultUserMovesRegistry(host: string, app: string, newDigest: string)
    requires LooksLikeRegistry(host) && '/' !in host && ':' !in host
    requires '/' !in app && ':' !in app
    requires IsDigest(newDigest)
    ensures var info := ImageInfo(None, DefaultUser, host + "/" + app, "", None, DefaultUser + "/" + (host + "/" + app));
      && NestedUnderDefaultUser(info)
      && Parse(Build(info, newDigest)).registry == Some(host)
      && Parse(Build(info, newDigest)).repo == app
  {
    var info := ImageInfo(None, DefaultUser, host + "/" + app, "", None, DefaultUser + "/" + (host + "/" + app));
    assert Build(info, newDigest) == host + "/" + app + ("@" + newDigest);
    ParseHostedRepo(host, app, newDigest);
  }

  // ---------------------------------------------------------------------
  // Worked examples

  /** In `host/user/repo`, every colon (those of a `host:port`) is followed by a `/`. */
  lemma QualifiedBaseShadowed(host: string, user: string, repo: string)
    requires '/' !in host && ':' !in user && ':' !in repo
    ensures ColonsShadowed(host + "/" + user + "/" + repo)
  {
    var s := host + "/" + user + "/" + repo;
    forall k | 0 <= k < |s|
      ensures ShadowedAt(s, k)
    {
      if k < |host| {
        assert s[k + 1..][|host| - k - 1] == '/';
      } else if k == |host| || k == |host| + 1 + |user| {
        assert s[k] == '/';
      } else if k < |host| + 1 + |user| {
        assert s[k] == user[k - |host| - 1];
      } else {
        assert s[k] == repo[k - |host| - |user| - 2];
      }
    }
  }

  /**
   * A fully qualified reference `host/user/repo:tag@digest` (the host may
   * carry a port) parses into exactly those parts.
   */
  lemma ParseQualified(host: string, user: string, repo: string, tag: string, digest: string)
    requires LooksLikeRegistry(host) && '/' !in host
    requires '/' !in user && ':' !in user && '/' !in repo && ':' !in repo
    requires tag != "" && '/' !in tag
    requires IsDigest(digest)
    ensures var s := host + "/" + user + "/" + repo + ":" + tag + "@" + digest;
      Parse(s) == ImageInfo(Some(host), user, repo, tag, Some("@" + digest), s)
  {
    var path := user + "/" + repo;
    var base := host + "/" + path;
    assert host + "/" + user + "/" + repo == base;
    var noDigest := base + TagSuffix(tag);
    var dref := "@" + digest;
    assert IsDigestRef(dref) by { assert dref[1..] == digest; }
    var s := host + "/" + user + "/" + repo + ":" + tag + "@" + digest;
    assert s == noDigest + dref;
    SplitDigestOfJoin(noDigest, dref);
    QualifiedBaseShadowed(host, user, repo);
    SplitTagOfJoin(base, tag);
    RegistryDetection(host, path);
    UserRepoSplit(user, repo);
    ParseFromSteps(s, noDigest, Some(dref), base, tag, Some(host), path, user, repo);
  }
}
