/**
 * The service rewrite of `update_docker_compose_file` (docker-updater.py):
 * every planned service that has an `image` field gets the reference
 * rebuilt with its new digest, and the outcome is reported as `updated`,
 * `no_change` or `error`.
 *
 * YAML loading and dumping are abstracted: the loaded document is a
 * `Loaded` value and the written file is the rewritten `services` map.
 */
module ComposeUpdate {
  import opened Wrappers
  import opened Digests
  import opened ImageReference
  import opened UpdatePlan

  /** The status string returned next to the success flag. */
  datatype Status = Updated | NoChange | Error

  /**
   * What loading the compose file gives: `Unreadable` for an empty
   * document or a load that raised, otherwise the `services` section of
   * the top-level mapping, `None` when it has none.
   */
  datatype Loaded = Unreadable | Document(services: Option<Services>)

  /** The reference a planned service is pointed at. */
  function NewImage(entry: Planned): string {
    Build(entry.original, entry.newDigest)
  }

  /** The rewrite assigns a new `image` to this service: it is planned, has an image, and that image differs. */
  predicate NeedsChange(services: Services, plan: map<string, Planned>, name: string) {
    name in services && name in plan && "image" in services[name]
    && services[name]["image"] != NewImage(plan[name])
  }

  /** One service after the rewrite: a planned service with an `image` field points at its new reference. */
  function RewrittenService(services: Services, plan: map<string, Planned>, name: string): Fields
    requires name in services
  {
    if name in plan && "image" in services[name] then services[name]["image" := NewImage(plan[name])]
    else services[name]
  }

  /** The whole `services` section after the rewrite. */
  function Rewritten(services: Services, plan: map<string, Planned>): map<string, Fields> {
    map name | name in services :: RewrittenService(services, plan, name)
  }

  /**
   * The loop over `data['services']`: a service outside the plan, or
   * without an `image`, or already at its new reference, is left alone;
   * any other gets the new reference and sets `updated`.
   */
  method RewriteServices(services: Services, plan: map<string, Planned>) returns (result: Services, updated: bool)
    ensures result == Rewritten(services, plan)
    ensures updated <==> exists name :: NeedsChange(services, plan, name)
  {
    result, updated := services, false;
    var pending := services.Keys;
    while pending != {}
      invariant pending <= services.Keys && result.Keys == services.Keys
      invariant forall name | name in services ::
        result[name] == if name in pending then services[name] else RewrittenService(services, plan, name)
      invariant updated <==> exists name | name !in pending :: NeedsChange(services, plan, name)
      decreases pending
    {
      var name :| name in pending;
      pending := pending - {name};
      if name in plan {
        var newImage := NewImage(plan[name]);
        var config := result[name];
        if "image" !in config || config["image"] == newImage {
          // Already at the new reference, or nothing to point: left as it is.
          if "image" in config {
            assert config["image" := newImage] == config;
          }
        } else {
          result := result[name := config["image" := newImage]];
          updated := true;
        }
      }
    }
  }

  /**
   * `update_docker_compose_file` after loading: an unusable document or
   * one without `services` is an error; otherwise the services are
   * rewritten, and the file is written, and reported updated, exactly
   * when some image changed.
   */
  method UpdateComposeFile(loaded: Loaded, plan: map<string, Planned>)
    returns (fileUpdated: bool, status: Status, written: Option<Services>)
    ensures status == Error <==> loaded.Unreadable? || loaded.services.None?
    ensures status == Updated <==>
      loaded.Document? && loaded.services.Some? && exists name :: NeedsChange(loaded.services.value, plan, name)
    ensures fileUpdated <==> status == Updated
    ensures written.Some? <==> status == Updated
    ensures written.Some? ==> written.value == Rewritten(loaded.services.value, plan)
  {
    if loaded.Unreadable? || loaded.services.None? {
      return false, Error, None;
    }
    var result, updated := RewriteServices(loaded.services.value, plan);
    if updated {
      return true, Updated, Some(result);
    }
    return false, NoChange, None;
  }

  // ---------------------------------------------------------------------
  // Properties of the rewrite

  /**
   * The rewrite keeps every service and every field name; a service
   * differs afterwards exactly when it needed a change, and then only in
   * its `image`, which is the new reference.
   */
  lemma RewriteOnlyTouchesImages(services: Services, plan: map<string, Planned>, name: string)
    requires name in services
    ensures var after := Rewritten(services, plan);
      && after.Keys == services.Keys
      && after[name].Keys == services[name].Keys
      && (forall field | field in services[name] && field != "image" :: after[name][field] == services[name][field])
      && (after[name] != services[name] <==> NeedsChange(services, plan, name))
      && (NeedsChange(services, plan, name) ==> after[name]["image"] == NewImage(plan[name]))
  {
    var after := Rewritten(services, plan);
    if name in plan && "image" in services[name] && !NeedsChange(services, plan, name) {
      assert after[name] == services[name];
    }
    if NeedsChange(services, plan, name) {
      assert after[name]["image"] != services[name]["image"];
    }
  }

  /** Rewriting twice with the same plan is rewriting once, and the second pass finds nothing to change. */
  lemma RewriteIdempotent(services: Services, plan: map<string, Planned>)
    ensures Rewritten(Rewritten(services, plan), plan) == Rewritten(services, plan)
    ensures forall name :: !NeedsChange(Rewritten(services, plan), plan, name)
  {
    var after := Rewritten(services, plan);
    forall name | name in after
      ensures RewrittenService(after, plan, name) == after[name]
    {
      if name in plan && "image" in after[name] {
        assert after[name]["image" := NewImage(plan[name])] == after[name];
      }
    }
  }

  /** Parsing a rebuilt reference and building it again with the same digest gives the same text. */
  lemma BuildUsesOnlyNames(info: ImageInfo, again: ImageInfo, newDigest: string)
    requires again.registry == info.registry && again.user == info.user
    requires again.repo == info.repo && again.tag == info.tag
    ensures Build(again, newDigest) == Build(info, newDigest)
  {
  }

  /**
   * One service across two runs with the same answers from the digest
   * service: after the first rewrite it is planned again exactly when it
   * was planned, with the same digest and the same new reference, so the
   * second rewrite leaves it alone.
   */
  lemma ServiceStable(services: Services, respond: Resolver, name: string)
    requires name in services
    requires var plan := Plan(Some(services), respond);
      name in plan ==> !NestedUnderDefaultUser(plan[name].original)
    ensures var plan := Plan(Some(services), respond);
      var after := Rewritten(services, plan);
      var again := Plan(Some(after), respond);
      && (name in again <==> name in plan)
      && (name in plan ==> again[name].newDigest == plan[name].newDigest && NewImage(again[name]) == NewImage(plan[name]))
      && !NeedsChange(after, again, name)
  {
    var plan := Plan(Some(services), respond);
    var after := Rewritten(services, plan);
    var again := Plan(Some(after), respond);
    PlanMembership(services, respond, name);
    PlanMembership(after, respond, name);
    if name in plan {
      var image := services[name]["image"];
      var entry := plan[name];
      ParseAfterBuild(image, entry.newDigest);
      assert after[name]["image"] == NewImage(entry);
      BuildUsesOnlyNames(entry.original, Parse(NewImage(entry)), entry.newDigest);
    } else {
      assert after[name] == services[name];
    }
  }

  /**
   * Running the updater a second time, with the same answers from the
   * digest service, plans the same services with the same digests and
   * writes nothing. This needs every planned image to be other than an
   * explicit `library/` path with a further `/` in it, whose rebuilt
   * reference names a different image (`NestedUnderDefaultUserMovesRegistry`).
   */
  lemma SecondRunWritesNothing(services: Services, respond: Resolver)
    requires var plan := Plan(Some(services), respond);
      forall name | name in plan :: !NestedUnderDefaultUser(plan[name].original)
    ensures var plan := Plan(Some(services), respond);
      var after := Rewritten(services, plan);
      var again := Plan(Some(after), respond);
      && again.Keys == plan.Keys
      && (forall name | name in again :: again[name].newDigest == plan[name].newDigest)
      && (forall name :: !NeedsChange(after, again, name))
  {
    var plan := Plan(Some(services), respond);
    var after := Rewritten(services, plan);
    var again := Plan(Some(after), respond);
    forall name | name in services
      ensures (name in again <==> name in plan)
      ensures name in again ==> again[name].newDigest == plan[name].newDigest
      ensures !NeedsChange(after, again, name)
    {
      ServiceStable(services, respond, name);
    }
    assert again.Keys <= after.Keys == services.Keys;
  }
}
