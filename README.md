# docker-updater: image references, digest pinning and the update plan

`docker-updater.py` keeps docker-compose projects pinned to the latest digest
of each image. For every project, it does four things:

- It reads the compose file and parses each service's `image` into registry,
  user, repository, tag and digest.
- It asks a digest service once for each distinct `(user, repo, tag)` key.
- It rewrites every planned service's image as
  `[registry/][user/]repo[:tag]@sha256:…`.
- It runs the container tool, either docker or podman.

This project is a Dafny model of that logic. It has five modules:

- `ImageReference` (`image_reference.dfy`) models `parse_image_string`,
  `get_printable_image_name` and `build_image_string_with_digest`.
  - The parser is a pipeline of four steps, in this order: the digest
    (`SplitDigest`), the tag (`SplitTag`), the registry (`SplitRegistry`),
    then user and repository (`SplitUserRepo`).
  - Each step has its inverse proved: splitting a join gives the parts back.
  - Python's regular-expression behaviour is written out:
    - `re.search` takes the leftmost match, so `a:b:c` has tag `b:c`.
    - `$` also matches before one final newline.
- `Digests` (`digests.dfy`) models the check that `get_latest_digest`
  applies to a reply. Python's `str.strip()` is written out, with Python's
  set of white-space characters.
- `UpdatePlan` (`update_plan.dfy`) models the planning block of `main`.
  - It has three loops over maps: `CollectServices`, `ResolveKeys` and
    `FillDigests`.
  - `BuildPlan` runs the three loops, then applies the final filter.
  - Each loop is proved against a specification function: `CollectServices`
    against `Collected`, `ResolveKeys` against `LatestDigest`, and
    `FillDigests` against the per-key answers. `BuildPlan` is proved equal
    to `Plan`.
- `ComposeUpdate` (`compose_update.dfy`) models the loop of
  `update_docker_compose_file` over the `services` map. That loop is
  `RewriteServices`; `UpdateComposeFile` adds the `updated` / `no_change` /
  `error` outcome.
  - The rewrite is proved to touch only images, and to be idempotent.
  - A second run with the same answers from the digest service writes
    nothing.
- `ToolCommand` (`tool_command.dfy`) models the argv that `run_command`
  builds from a command, an optional tool override and the two detected
  tool flags.

The digest service is a parameter: `respond: Key -> Option<string>` gives the
body of a successful `text/plain` reply. The format check is applied on top of
it (`LatestDigest`).

The model follows the code, including where it departs from the usual
reading of image references and from a more elaborate updater:

- A path without `/` gets user `library`. It is not "absent".
- `localhost` is *not* a registry.
- The parsed `digest` keeps its leading `@`.
- Planning asks only one digest service, with no mirror fallback.
- Planning does not exclude `localhost` images.
- Planning does not compare against a digest already in the reference.
  So a second run plans the same services again, but it writes nothing.

## Model

| member | source | states |
|---|---|---|
| `ImageReference.IndexOf` | docker-updater.py:252 | the first position of a character: it holds that character and nothing before it does; None exactly when the character is absent |
| `ImageReference.SplitOnce` | docker-updater.py:252 | `split(c, 1)`: the head has no `c`; head, `c` and tail rejoin to the input; with no `c` the whole input is the head |
| `ImageReference.SplitOnceOfJoin` | docker-updater.py:252 | splitting `head + c + tail` at the first `c` gives back `head` and `tail` when `head` has no `c` |
| `ImageReference.SplitDigest` | docker-updater.py:233-239 | a found digest is `@sha256:` and 64 lower-case hex digits; the text before it and the digest (plus an optional final newline) rejoin to the input; with no digest the input is unchanged |
| `ImageReference.SplitDigestOfJoin` | docker-updater.py:233-239 | a text ending in a digest reference, with or without a final newline, splits into exactly that text and that reference |
| `ImageReference.FirstTagColon` | docker-updater.py:242 | `re.search` of `:([^/]+)$`: the leftmost position that matches; nothing before it matches; None when no position matches |
| `ImageReference.ShadowedBeforeFirstMatch` | docker-updater.py:242 | every colon before the leftmost tag match is followed by a `/` |
| `ImageReference.SplitTag` | docker-updater.py:241-248 | an empty tag leaves the text unchanged and means no position matched; a non-empty tag is `/`-free, follows a `:`, and every colon before it is followed by a `/` |
| `ImageReference.SplitTagOfJoin` | docker-updater.py:241-248 | the tag step undoes appending `:tag` to any base it can stand after (the inverse of `TagSuffix`) |
| `ImageReference.SplitTagSplittable` | docker-updater.py:241-248 | the base and tag the tag step produces are always a pair it can split again |
| `ImageReference.SplitRegistry` | docker-updater.py:252-260 | a found registry is `/`-free and has `.` or `:` and is not `localhost`, and registry, `/` and path rejoin to the base; otherwise the path is the whole base |
| `ImageReference.SplitUserRepo` | docker-updater.py:263-269 | the user is `/`-free; a path with `/` is user, `/` and repo; a path without `/` gives user `library` and the path as repo |
| `ImageReference.Printable` | docker-updater.py:280-299 | no ensures of its own: stated by `PrintableAfterParse` and `PrintableOmitsRegistry` |
| `ImageReference.Build` | docker-updater.py:301-326 | no ensures of its own: stated by `BuildAfterParse`, `ParseAfterBuild` and `PrintableOmitsRegistry` |
| `ImageReference.Parse` | docker-updater.py:218-278 | `raw` is the input; a digest is always a well-formed `@sha256:` reference; tag and user contain no `/` |
| `ImageReference.ParseSplitsInOrder` | docker-updater.py:233-248 | the text without its digest is the base plus `:tag` (tag non-empty) or the base alone; the text plus the digest (and an optional final newline) is the input; a non-empty tag is `/`-free |
| `ImageReference.RegistryDetection` | docker-updater.py:252-260 | for `head/tail` with a `/`-free head, the registry is `head` with path `tail` exactly when the head has `.` or `:` and is not `localhost`; otherwise there is no registry and the path is the whole base |
| `ImageReference.NoSlashNoRegistry` | docker-updater.py:252-260 | a base without `/` has no registry and is its own repository path |
| `ImageReference.UserRepoSplit` | docker-updater.py:263-266 | `user/repo` with a `/`-free user splits into that user and that repo, even when `repo` contains `/` |
| `ImageReference.BaseFromRegistryAndPath` | docker-updater.py:252-260 | the registry prefix followed by the repository path is the base |
| `ImageReference.PathFromUserAndRepo` | docker-updater.py:263-269 | a path with `/` is `user/repo`; a path without `/` is the repo, and the user is `library` |
| `ImageReference.RejoinUserRepo` | docker-updater.py:315-319 | the user prefix and the repo give back the path exactly when the path does not spell out `library/` |
| `ImageReference.BuildAfterParse` | docker-updater.py:301-326 | building a parsed reference with a new digest gives the reference without its old digest, then `@`, then the new digest, exactly when the path does not spell out `library/` |
| `ImageReference.BuildOfParts` | docker-updater.py:301-326 | the same equivalence, stated on the parts of any reference |
| `ImageReference.PrintableAfterParse` | docker-updater.py:280-299 | the registry prefix followed by the printable name is the reference without its digest, unless the path spells out `library/` |
| `ImageReference.PrintableOfParts` | docker-updater.py:280-299 | the same, stated on the parts of any reference |
| `ImageReference.PrintableOmitsRegistry` | docker-updater.py:280-299 | the printable name does not depend on the registry; a built reference is the registry prefix, the printable name, `@` and the digest |
| `ImageReference.ParseFromSteps` | docker-updater.py:218-278 | the parse result is read off the results of the four steps |
| `ImageReference.ParseAfterBuild` | docker-updater.py:301-326 | re-parsing a built reference gives back registry, user, repository and tag, and finds the new digest, unless the repository is nested under the default user |
| `ImageReference.NoColonNoDigest` | docker-updater.py:233-239 | a text without `:` has no digest |
| `ImageReference.NoColonNoTag` | docker-updater.py:241-248 | a text without `:` has no tag |
| `ImageReference.ParseNestedUnderDefaultUser` | docker-updater.py:218-278 | `library/host/app` parses as repository `host/app` of user `library`, with no registry, tag or digest |
| `ImageReference.ParseHostedRepo` | docker-updater.py:218-278 | `host/app@digest` parses with registry `host`, user `library`, repository `app` and that digest |
| `ImageReference.NestedUnderDefaultUserMovesRegistry` | docker-updater.py:301-326 | for a repository nested under `library`, the built reference re-parses with `host` as its registry and `app` as its repository: the side condition of `ParseAfterBuild` is needed |
| `ImageReference.QualifiedBaseShadowed` | docker-updater.py:241-248 | in `host/user/repo` every colon, such as that of a `host:port`, is followed by a `/`, so the tag step finds no tag inside it |
| `ImageReference.ParseQualified` | docker-updater.py:218-278 | `host/user/repo:tag@sha256:…`, where the host may carry a port, parses into exactly those parts |
| `Digests.IsSpace` | docker-updater.py:360 | no ensures: Python's `str.isspace()` character set, used by `Strip` |
| `Digests.MatchesDigestPattern` | docker-updater.py:361 | no ensures: `^sha256:[0-9a-f]{64}$` without MULTILINE, so one final newline is also allowed; `AcceptDigest` shows that after stripping this is exactly `IsDigest` |
| `Digests.TrimLeft` | docker-updater.py:360 | the result is a suffix whose removed prefix is all white space, and it does not start with white space |
| `Digests.TrimRight` | docker-updater.py:360 | the result is a prefix whose removed suffix is all white space, and it does not end with white space |
| `Digests.Strip` | docker-updater.py:360 | the result has no white space at either end, and is empty only for an all-white-space text |
| `Digests.AcceptDigest` | docker-updater.py:359-366 | a digest is returned exactly when the stripped text is `sha256:` and 64 lower-case hex digits, and it is that stripped text |
| `Digests.StripOfPadded` | docker-updater.py:360 | stripping removes exactly the white space around a text that has none at its ends |
| `Digests.AcceptPaddedDigest` | docker-updater.py:359-366 | a well-formed digest surrounded by any white space is accepted, and the result is that digest |
| `UpdatePlan.ImageOf` | docker-updater.py:476-479 | no ensures: the `image` field when it is present and non-empty; stated by `PlanMembership` |
| `UpdatePlan.PlanOf` | docker-updater.py:518-528 | no ensures: the collected services whose key resolved, each with its key's digest; stated by `FilteredIsPlanOf` and `PlanMembership` |
| `UpdatePlan.Plan` | docker-updater.py:470-528 | no ensures: `PlanOf` the collected services, nothing without a `services` section; `BuildPlan` is proved equal to it and `PlanMembership` characterises it |
| `UpdatePlan.LatestDigest` | docker-updater.py:359-366 | a key resolves exactly when the reply exists and its stripped body is a well-formed digest, which is then the result |
| `UpdatePlan.CollectedStep` | docker-updater.py:475-499 | visiting one more service adds it, with its parsed image, exactly when it names a non-empty image |
| `UpdatePlan.PlaceholderStep` | docker-updater.py:490-494 | recording one more key keeps exactly one `None` placeholder per collected key |
| `UpdatePlan.KeysOfStep` | docker-updater.py:486-494 | adding a service adds its `(user, repo, tag)` key to the set of keys |
| `UpdatePlan.CollectServices` | docker-updater.py:474-499 | the first loop collects exactly the services naming an image, parsed, plus a `None` placeholder for each distinct key and nothing else |
| `UpdatePlan.ResolveKeys` | docker-updater.py:505-516 | each placeholder key is asked about exactly once; afterwards it holds the checked digest, and stays `None` when there is none |
| `UpdatePlan.FillDigests` | docker-updater.py:518-522 | every collected service gets the answer recorded for its key |
| `UpdatePlan.BuildPlan` | docker-updater.py:470-528 | the plan equals `Plan`; no key is asked twice; the keys asked are exactly those of the services naming an image; nothing is asked when there is no `services` section |
| `UpdatePlan.FilteredIsPlanOf` | docker-updater.py:524-528 | filtering the filled-in services on a non-None digest gives the collected services whose key resolved, with that digest |
| `UpdatePlan.PlanMembership` | docker-updater.py:474-528 | a service is planned exactly when it names an image whose key resolved; it then carries its parsed image and the well-formed digest for its key |
| `UpdatePlan.SameKeySameDigest` | docker-updater.py:518-522 | planned services with the same key get the same digest |
| `UpdatePlan.RequestsBoundedByServices` | docker-updater.py:490-509 | there are no more requests than services naming an image |
| `UpdatePlan.ImageNoLarger` | docker-updater.py:490-494 | mapping a set of names to keys gives no more keys than names |
| `ComposeUpdate.NeedsChange` | docker-updater.py:394-409 | no ensures: a planned service with an `image` that differs from its built reference |
| `ComposeUpdate.RewrittenService` | docker-updater.py:394-409 | no ensures: one service after the rewrite; stated by `RewriteOnlyTouchesImages` |
| `ComposeUpdate.Rewritten` | docker-updater.py:393-411 | no ensures: the whole `services` map after the rewrite; `RewriteServices` is proved equal to it, and `RewriteOnlyTouchesImages` and `RewriteIdempotent` state its properties |
| `ComposeUpdate.RewriteServices` | docker-updater.py:392-411 | the services afterwards are `Rewritten`; `updated` is set exactly when some planned service had an image different from its built reference |
| `ComposeUpdate.UpdateComposeFile` | docker-updater.py:388-419 | an empty document or one without `services` is an `error`; otherwise `updated` exactly when some image changed, else `no_change`; the file is written, with the rewritten services, exactly in the `updated` case |
| `ComposeUpdate.RewriteOnlyTouchesImages` | docker-updater.py:393-411 | every service and field name is kept, and every field other than `image` is unchanged; a service changes exactly when it needed a change, and then its image is the built reference |
| `ComposeUpdate.RewriteIdempotent` | docker-updater.py:404-411 | rewriting twice with the same plan is rewriting once, and the second pass finds nothing to change |
| `ComposeUpdate.BuildUsesOnlyNames` | docker-updater.py:301-326 | building depends only on registry, user, repository and tag |
| `ComposeUpdate.ServiceStable` | docker-updater.py:404-411 | across two runs with the same replies, a service is planned again exactly when it was, with the same digest and the same new reference, and the second rewrite leaves it alone |
| `ComposeUpdate.SecondRunWritesNothing` | docker-updater.py:388-419 | a second run with the same replies plans the same services with the same digests, and no image needs a change, so nothing is written |
| `ToolCommand.DefaultTool` | docker-updater.py:39-45 | with no override the tool is podman exactly when podman was detected, and is always one of podman, docker-compose or docker |
| `ToolCommand.EffectiveTool` | docker-updater.py:39-45 | the effective tool is never empty, and it is podman exactly when a truthy override names podman, or when there is no truthy override and podman was detected |
| `ToolCommand.Translate` | docker-updater.py:47-64 | the argv starts with a launcher, keeps the command's words after the first one as its tail, and `CommandOf` recovers the command from it |
| `ToolCommand.PodmanExactlyWhenChosen` | docker-updater.py:50-64 | the argv starts with `podman` or `podman-compose` exactly when the effective tool is podman |
| `ToolCommand.ComposeUnderPodman` | docker-updater.py:50-53 | under podman, a `compose` command becomes exactly `podman-compose` followed by the words after `compose` |
| `ToolCommand.ComposeUnderDocker` | docker-updater.py:50-59 | under a tool other than podman, a `compose` command becomes exactly `docker-compose` and the words after `compose` when the legacy binary was detected, and `docker compose` and those words otherwise |
| `ToolCommand.OtherCommandsArePrefixed` | docker-updater.py:60-64 | any other command keeps all its words behind one launcher, which is `podman` exactly when the tool is podman and `docker` in every other case |
| `ToolCommand.FalsyOverrideIsDefault` | docker-updater.py:39-45 | a missing override and an empty one behave alike, and both behave as naming the default tool |

## Left out

- Running commands is not modelled: process execution, output streaming,
  return codes and missing executables in `run_command` (lines 66-115).
- Tool detection (lines 117-157) is not modelled. Its two results are the
  `ToolFlags` parameter.
- Enumerating projects (lines 159-216) is not modelled.
- The HTTP request in `get_latest_digest` is not modelled: the URL, the
  timeout, the status check, the content-type check and the exceptions. It is
  the `respond` parameter, whose `None` stands for any of those failures.
- YAML loading and dumping, and format preservation, are not modelled.
  - A loaded document is a `Loaded` value: `Unreadable` stands for an empty
    document or a load that raised.
  - The written file is represented by its rewritten `services` map.
  - Service fields are string-valued. A non-string `image` value and a
    `null` service entry are not represented.
- Everything `main` does after planning is not modelled: `os.chdir`, pull,
  backup, `compose up`, rollback and the clean-up. The backup is taken
  (line 548) after the file was already rewritten (line 535), so the model
  claims nothing about a rollback restoring the original content.
- Coloured console output is not modelled. This includes the printable name
  used in log lines, except for its own properties.
- Dict iteration order is not modelled: the loops take keys in an arbitrary
  order. The only thing it affects is the order of requests to the digest
  service, and `BuildPlan` states that set of requests without its order.
- `main` does not check the loaded document before planning. For an empty
  compose file, `'services' in compose_config` (line 474) raises `TypeError`.
  For a `services:` key with no value, `.items()` (line 475) raises
  `AttributeError`. Both happen outside any `try`, so either one ends the
  whole run, not just that project. The model does not represent these
  crashes: `Plan` takes an `Option`, and a missing section plans nothing.
- `ToolCommand.Translate`: requires a non-empty command, because the source
  indexes `command[0]` and every caller passes a non-empty list.
- `ImageReference.ParseAfterBuild`: stated only for references that are not a
  repository with a `/` under an explicit `library/` user, because building
  drops that segment and the result names a different image
  (`NestedUnderDefaultUserMovesRegistry`).
- `ComposeUpdate.SecondRunWritesNothing`: carries the same side condition, for
  the same reason.
- `ComposeUpdate.ServiceStable`: carries the same side condition, for the
  same reason.
