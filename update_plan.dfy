/**
 * The planning block of the updater's `main` (docker-updater.py): for every
 * service of a compose file that names an image, parse the image, ask the
 * digest resolver once per distinct `(user, repo, tag)`, and keep the
 * services whose key resolved to a digest.
 *
 * The compose file is an in-memory map from service name to its fields;
 * YAML loading is not modelled. The digest service is the parameter
 * `respond`: for a key it gives the body of a successful `text/plain` reply,
 * or `None` when the request, the status or the content type failed. The
 * format check of `get_latest_digest` is applied on top of it.
 */
module UpdatePlan {
  import opened Wrappers
  import opened Digests
  import opened ImageReference

  /** The fields of one service, as far as the updater reads them. */
  type Fields = map<string, string>

  /** The `services` section: service name to fields. */
  type Services = map<string, Fields>

  /** What the digest service is asked about: `(user, repo, tag)`; the registry is not part of it. */
  datatype Key = Key(user: string, repo: string, tag: string)

  /** One entry of `services_with_valid_digest`. */
  datatype Planned = Planned(original: ImageInfo, newDigest: string)

  /** The body of a successful `text/plain` reply for a key, if there was one. */
  type Resolver = Key -> Option<string>

  /** `service_details.get('image')` when it is truthy: present and non-empty. */
  function ImageOf(fields: Fields): Option<string> {
    if "image" in fields && fields["image"] != "" then Some(fields["image"]) else None
  }

  /** The key asked about for a parsed image. */
  function KeyOf(info: ImageInfo): Key {
    Key(info.user, info.repo, info.tag)
  }

  /** `services_to_update` after the services in `names` were visited: those naming an image, parsed. */
  function CollectedAmong(services: Services, names: set<string>): map<string, ImageInfo> {
    map name | name in names && name in services && ImageOf(services[name]).Some?
      :: Parse(ImageOf(services[name]).value)
  }

  /** `services_to_update` after the first pass. */
  function Collected(services: Services): map<string, ImageInfo> {
    CollectedAmong(services, services.Keys)
  }

  /** The distinct keys of some parsed images. */
  function KeysOf(toUpdate: map<string, ImageInfo>): set<Key> {
    set name | name in toUpdate :: KeyOf(toUpdate[name])
  }

  /** The keys asked about: those of the services that name an image. */
  function RequestedKeys(services: Services): set<Key> {
    KeysOf(Collected(services))
  }

  /** `get_latest_digest`: the reply's body, stripped, when it is a well-formed digest. */
  function LatestDigest(respond: Resolver, key: Key): (digest: Option<string>)
    ensures digest.Some? <==> respond(key).Some? && IsDigest(Strip(respond(key).value))
    ensures digest.Some? ==> IsDigest(digest.value) && digest.value == Strip(respond(key).value)
  {
    match respond(key)
    case None => None
    case Some(text) => AcceptDigest(text)
  }

  /** The collected services whose key resolved, each with the digest of its key. */
  function PlanOf(toUpdate: map<string, ImageInfo>, respond: Resolver): map<string, Planned> {
    map name | name in toUpdate && LatestDigest(respond, KeyOf(toUpdate[name])).Some?
      :: Planned(toUpdate[name], LatestDigest(respond, KeyOf(toUpdate[name])).value)
  }

  /** `services_with_valid_digest`; a file without a `services` section plans nothing. */
  function Plan(services: Option<Services>, respond: Resolver): map<string, Planned> {
    if services.None? then map[] else PlanOf(Collected(services.value), respond)
  }

  /** `target_image_api_keys_to_digest` before any request: a `None` placeholder for each of `keys`. */
  predicate AllPlaceholders(keyDigests: map<Key, Option<string>>, keys: set<Key>) {
    keyDigests.Keys == keys && forall k | k in keyDigests :: keyDigests[k] == None
  }

  /** No key is asked about twice. */
  predicate Distinct(keys: seq<Key>) {
    forall i, j :: 0 <= i < j < |keys| ==> keys[i] != keys[j]
  }

  // ---------------------------------------------------------------------
  // The three passes of `main`

  /** Visiting one more service adds it, parsed, exactly when it names an image. */
  lemma CollectedStep(services: Services, seen: set<string>, name: string)
    requires name in services && name !in seen
    ensures CollectedAmong(services, seen + {name}) ==
              if ImageOf(services[name]).Some?
              then CollectedAmong(services, seen)[name := Parse(ImageOf(services[name]).value)]
              else CollectedAmong(services, seen)
  {
    var before, after := CollectedAmong(services, seen), CollectedAmong(services, seen + {name});
    CollectedKeysStep(services, seen, name);
    CollectedValuesStep(services, seen, name);
    if ImageOf(services[name]).Some? {
      MapStep(before, after, name, Parse(ImageOf(services[name]).value));
    } else {
      MapStep(before, after, name, Parse(""));
    }
  }

  lemma CollectedKeysStep(services: Services, seen: set<string>, name: string)
    requires name in services && name !in seen
    ensures CollectedAmong(services, seen + {name}).Keys ==
              CollectedAmong(services, seen).Keys + if ImageOf(services[name]).Some? then {name} else {}
  {
  }

  lemma CollectedValuesStep(services: Services, seen: set<string>, name: string)
    requires name in services && name !in seen
    ensures var before, after := CollectedAmong(services, seen), CollectedAmong(services, seen + {name});
      && (forall n | n in before :: after[n] == before[n])
      && (ImageOf(services[name]).Some? ==> after[name] == Parse(ImageOf(services[name]).value))
  {
  }

  /** A map that agrees with `before` on its keys and adds at most `name`. */
  lemma MapStep<V>(before: map<string, V>, after: map<string, V>, name: string, v: V)
    requires name !in before
    requires after.Keys == before.Keys || (after.Keys == before.Keys + {name} && after[name] == v)
    requires forall n | n in before :: after[n] == before[n]
    ensures after == if name in after then before[name := v] else before
  {
  }

  /** Recording the key of one more service adds a placeholder unless the key is already there. */
  lemma PlaceholderStep(keyDigests: map<Key, Option<string>>, keys: set<Key>, key: Key)
    requires AllPlaceholders(keyDigests, keys)
    ensures AllPlaceholders(if key in keyDigests then keyDigests else keyDigests[key := None], keys + {key})
  {
  }

  /** Adding a service adds its key. */
  lemma KeysOfStep(toUpdate: map<string, ImageInfo>, name: string, info: ImageInfo)
    requires name !in toUpdate
    ensures KeysOf(toUpdate[name := info]) == KeysOf(toUpdate) + {KeyOf(info)}
  {
    var bigger := toUpdate[name := info];
    forall k | k in KeysOf(toUpdate)
      ensures k in KeysOf(bigger)
    {
      var n :| n in toUpdate && KeyOf(toUpdate[n]) == k;
      assert bigger[n] == toUpdate[n];
    }
    assert KeyOf(bigger[name]) in KeysOf(bigger);
  }

  /**
   * The first pass: every service that names an image, with its parsed
   * image, and a placeholder `None` for each distinct key.
   */
  method CollectServices(services: Services) returns (toUpdate: map<string, ImageInfo>, keyDigests: map<Key, Option<string>>)
    ensures toUpdate == Collected(services)
    ensures AllPlaceholders(keyDigests, KeysOf(toUpdate))
  {
    toUpdate, keyDigests := map[], map[];
    var pending := services.Keys;
    ghost var seen: set<string> := {};
    while pending != {}
      invariant pending + seen == services.Keys && pending !! seen
      invariant toUpdate == CollectedAmong(services, seen)
      invariant AllPlaceholders(keyDigests, KeysOf(toUpdate))
      decreases pending
    {
      var name :| name in pending;
      CollectedStep(services, seen, name);
      pending, seen := pending - {name}, seen + {name};
      var image := ImageOf(services[name]);
      if image.Some? {
        var info := Parse(image.value);
        var key := KeyOf(info);
        KeysOfStep(toUpdate, name, info);
        PlaceholderStep(keyDigests, KeysOf(toUpdate), key);
        if key !in keyDigests {
          keyDigests := keyDigests[key := None];
        }
        toUpdate := toUpdate[name := info];
      }
    }
  }

  /**
   * The second pass: one request per collected key, recorded in `queried`
   * in the order asked; a key keeps its placeholder unless the answer is
   * truthy.
   */
  method ResolveKeys(keyDigests: map<Key, Option<string>>, respond: Resolver)
    returns (resolved: map<Key, Option<string>>, queried: seq<Key>)
    requires forall k | k in keyDigests :: keyDigests[k] == None
    ensures resolved.Keys == keyDigests.Keys
    ensures forall k | k in resolved :: resolved[k] == LatestDigest(respond, k)
    ensures Distinct(queried)
    ensures forall k :: k in queried <==> k in keyDigests
  {
    resolved := keyDigests;
    var unasked := keyDigests.Keys;
    queried := [];
    while unasked != {}
      invariant unasked <= keyDigests.Keys && resolved.Keys == keyDigests.Keys
      invariant Distinct(queried)
      invariant forall k :: k in queried <==> k in keyDigests && k !in unasked
      invariant forall k | k in unasked :: resolved[k] == None
      invariant forall k | k in resolved && k !in unasked :: resolved[k] == LatestDigest(respond, k)
      decreases unasked
    {
      var key :| key in unasked;
      var latest := LatestDigest(respond, key);
      assert latest.Some? ==> |latest.value| == 71;
      if latest.Some? && latest.value != "" {
        resolved := resolved[key := latest];
      }
      unasked := unasked - {key};
      queried := queried + [key];
    }
  }

  /** The third pass: every collected service gets the answer for its key. */
  method FillDigests(toUpdate: map<string, ImageInfo>, resolved: map<Key, Option<string>>)
    returns (filled: map<string, Option<string>>)
    requires KeysOf(toUpdate) <= resolved.Keys
    ensures filled == map name | name in toUpdate :: resolved[KeyOf(toUpdate[name])]
  {
    filled := map[];
    var unfilled := toUpdate.Keys;
    while unfilled != {}
      invariant unfilled <= toUpdate.Keys
      invariant filled == map name | name in toUpdate && name !in unfilled :: resolved[KeyOf(toUpdate[name])]
      decreases unfilled
    {
      var name :| name in unfilled;
      assert KeyOf(toUpdate[name]) in KeysOf(toUpdate);
      filled := filled[name := resolved[KeyOf(toUpdate[name])]];
      unfilled := unfilled - {name};
    }
  }

  /**
   * The plan as `main` builds it: the three passes, then the filter that
   * drops the services left without a digest. The resolver is asked once
   * for each distinct key of the services that name an image, and for
   * nothing else.
   */
  method BuildPlan(services: Option<Services>, respond: Resolver) returns (plan: map<string, Planned>, queried: seq<Key>)
    ensures plan == Plan(services, respond)
    ensures Distinct(queried)
    ensures services.Some? ==> forall k :: k in queried <==> k in RequestedKeys(services.value)
    ensures services.None? ==> queried == []
  {
    var toUpdate: map<string, ImageInfo> := map[];
    var keyDigests: map<Key, Option<string>> := map[];
    if services.Some? {
      toUpdate, keyDigests := CollectServices(services.value);
    }
    if toUpdate == map[] {
      // No service names an image: the project is skipped before any request.
      return map[], [];
    }
    var resolved;
    resolved, queried := ResolveKeys(keyDigests, respond);
    var filled := FillDigests(toUpdate, resolved);
    plan := map name | name in filled && filled[name].Some? :: Planned(toUpdate[name], filled[name].value);
    FilteredIsPlanOf(toUpdate, respond, resolved, filled, plan);
  }

  /** The filter over the filled-in services is `PlanOf` the collected ones. */
  lemma FilteredIsPlanOf(toUpdate: map<string, ImageInfo>, respond: Resolver, resolved: map<Key, Option<string>>,
                         filled: map<string, Option<string>>, plan: map<string, Planned>)
    requires KeysOf(toUpdate) <= resolved.Keys
    requires forall k | k in resolved :: resolved[k] == LatestDigest(respond, k)
    requires filled == map name | name in toUpdate :: resolved[KeyOf(toUpdate[name])]
    requires plan == map name | name in filled && filled[name].Some? :: Planned(toUpdate[name], filled[name].value)
    ensures plan == PlanOf(toUpdate, respond)
  {
    forall name | name in toUpdate
      ensures filled[name] == LatestDigest(respond, KeyOf(toUpdate[name]))
    {
      assert KeyOf(toUpdate[name]) in KeysOf(toUpdate);
    }
  }

  // ---------------------------------------------------------------------
  // Properties of the plan

  /**
   * A service is planned exactly when it names an image whose key resolved;
   * it then carries its parsed image and the well-formed digest of its key.
   */
  lemma PlanMembership(services: Services, respond: Resolver, name: string)
    ensures var plan := Plan(Some(services), respond);
      && (name in plan <==> name in services && ImageOf(services[name]).Some?
                             && LatestDigest(respond, KeyOf(Parse(services[name]["image"]))).Some?)
      && (name in plan ==>
            && plan[name].original == Parse(services[name]["image"])
            && Some(plan[name].newDigest) == LatestDigest(respond, KeyOf(plan[name].original))
            && IsDigest(plan[name].newDigest))
  {
  }

  /** Services that share a key get the same digest. */
  lemma SameKeySameDigest(services: Option<Services>, respond: Resolver, a: string, b: string)
    requires var plan := Plan(services, respond);
      a in plan && b in plan && KeyOf(plan[a].original) == KeyOf(plan[b].original)
    ensures Plan(services, respond)[a].newDigest == Plan(services, respond)[b].newDigest
  {
  }

  /** There are no more requests than services naming an image. */
  lemma RequestsBoundedByServices(services: Services)
    ensures |RequestedKeys(services)| <= |Collected(services)|
  {
    var toUpdate := Collected(services);
    var keyOf := map name | name in toUpdate :: KeyOf(toUpdate[name]);
    ImageNoLarger(toUpdate.Keys, keyOf);
    assert KeysOf(toUpdate) == set name | name in toUpdate.Keys :: keyOf[name];
  }

  /** A map's image of a set of its keys is no larger than that set. */
  lemma {:induction false} ImageNoLarger(names: set<string>, keyOf: map<string, Key>)
    requires names <= keyOf.Keys
    ensures |set name | name in names :: keyOf[name]| <= |names|
    decreases |names|
  {
    if names != {} {
      var name :| name in names;
      var rest := names - {name};
      ImageNoLarger(rest, keyOf);
      assert (set n | n in names :: keyOf[n]) == (set n | n in rest :: keyOf[n]) + {keyOf[name]};
    }
  }
}
