# Restoring removed blocked-service definitions

This project models the script that checks for removed services. The script
reads `blocked_services` from the built JSON artifact, which is the
authoritative list of blocked services. It then compares that list with the
YAML service definition files already on disk. Each declared service whose
`id` matches no on-disk file is written back as `<id>.yml` in the services
directory. A warning then lists the restored ids. The script states one
invariant: a service that was built once must never be removed.

The model has three modules:

- `ServiceModel` (`service_model.dfy`) holds the values. These are the service
  records, the on-disk descriptors and the file name `<id>.yml`. It also holds
  `Find`, which plays `Array.prototype.find`, and `Join`, which plays
  `Array.prototype.join`. `Split` is the partner of `Join`.
- `CheckRemovedServices` (`check_removed_services.dfy`) holds the loader, the
  missing-list computation and the write walk. `Written` is the directory
  after the writes, a left fold over the records. `Reconcile` is one whole run
  as a function. The class `ServicesDirectory` holds the directory as a map
  from file name to content. Its method `WriteRemovedServices` walks the
  missing list with a loop. `RestoreRemovedInputServices` is the entry point.
  It is proved equal to `Reconcile`.
- `ReconcileProperties` (`reconcile_properties.dfy`) holds the lemmas about a
  run.

These parts are parameters, carried in `Env`:

- the outcome of reading the artifact;
- `JSON.parse`, seen through the `.blocked_services` property access;
- the descriptors returned by the on-disk index helper;
- the set of file names whose write fails;
- what a failed write leaves in its file: nothing changed, or some content
  (an empty or partial file, since the open truncates or creates it);
- `yaml.dump`, an arbitrary deterministic function.

The logger becomes the `log` of the returned `Report`. A thrown error becomes
its `failure`.

Where the script's doc comments and its code differ, the model follows the
code:

- The doc comment of `restoreRemovedInputServices`
  (scripts/services/check-removed-services.js:62-63) says service ids are
  checked against the normalized YML file names. The code at :81-83 compares
  them with the `id` read from inside each file instead, as the TODO at :79
  admits. So `foo.yml` whose content says `id: bar` does not count for `foo`.
  When `foo` is declared, that file is overwritten. The lemma
  `MismatchedIdIsOverwritten` shows this case.
- The doc comment of `getBlockedServicesData` (:17-18) says it returns `null`
  when something goes wrong. The code logs and throws instead (:27-28).
- An artifact whose JSON text is `null` makes the property access throw
  inside the `try`. The code logs and rethrows this as a read error. It is not
  a shape error. The model gives it the `NullAccess` load cause.
- The doc comment names `distFilePath` as the path of the YML files (:67).
  The writes go to the module's fixed services directory (:7, :43). The
  `distFilePath` argument only reaches the on-disk index helper (:78).

## Model

| member | source | states |
|---|---|---|
| ServiceModel.FileNameInjective | scripts/services/check-removed-services.js:43 | two ids share a definition file name `<id>.yml` exactly when they are equal |
| ServiceModel.Find | scripts/services/check-removed-services.js:82 | finds no descriptor exactly when no descriptor carries the id; otherwise returns the first descriptor carrying it |
| ServiceModel.SplitJoin | scripts/services/check-removed-services.js:89 | joining a non-empty id list with a separator can be undone by splitting at it, when no id contains the separator's first character |
| CheckRemovedServices.GetBlockedServicesData | scripts/services/check-removed-services.js:21-30 | succeeds exactly when the artifact is read and parses to a non-null document, giving its `blocked_services` value with nothing logged; otherwise logs exactly one error line, which ends with the path |
| CheckRemovedServices.Differences | scripts/services/check-removed-services.js:81-83 | the result is a subsequence of the declared list, in declared order, holding every occurrence of each service with no on-disk id and nothing else |
| CheckRemovedServices.FirstUnwritable | scripts/services/check-removed-services.js:42-47 | counts the records whose writes succeed before the first failing write; when a write fails, it is at that index |
| CheckRemovedServices.WrittenSnoc | scripts/services/check-removed-services.js:37-49 | writing one more record changes only that record's `<id>.yml`, setting it to the record's dump |
| CheckRemovedServices.ServicesDirectory.constructor | scripts/services/check-removed-services.js:7 | the directory starts with the given files |
| CheckRemovedServices.ServicesDirectory.WriteRemovedServices | scripts/services/check-removed-services.js:37-49 | writes the removed records in order up to the first failing write; the directory is the fold of those writes over the old one, plus what the failed write left in its file; names the failing file when there is one |
| CheckRemovedServices.ServicesDirectory.RestoreRemovedInputServices | scripts/services/check-removed-services.js:71-91 | the new directory and the report are those of `Reconcile` on the old directory |
| ReconcileProperties.WrittenOverlay | scripts/services/check-removed-services.js:42-45 | writing over a directory is the same as laying the writes on top of it |
| ReconcileProperties.WrittenIdempotent | scripts/services/check-removed-services.js:37-49 | writing the same list twice leaves the same directory as writing it once |
| ReconcileProperties.WrittenFrame | scripts/services/check-removed-services.js:42-45 | the walk deletes no file, adds only `<id>.yml` files for its records and leaves every other file unchanged |
| ReconcileProperties.WrittenLastWins | scripts/services/check-removed-services.js:37-49 | a record with no later record of the same id ends as the content of its `<id>.yml`, so the later of two same-id records wins |
| ReconcileProperties.DifferencesMembership | scripts/services/check-removed-services.js:81-83 | a service is in the missing list exactly when it is declared and no descriptor carries its id |
| ReconcileProperties.OnDiskNamesNotMissing | scripts/services/check-removed-services.js:81-83 | no missing service is written under the file name of an on-disk descriptor's id |
| ReconcileProperties.LoadFailureWritesNothing | scripts/services/check-removed-services.js:21-30 | an unreadable, unparsable or `null` artifact ends the run with a load error, one error line naming the path, and an unchanged directory |
| ReconcileProperties.ShapeErrorWritesNothing | scripts/services/check-removed-services.js:74-77 | a `blocked_services` value that is not an array ends the run with the error "Blocked services data is not an array", no log line and no write, whatever the on-disk index, writability and dump are |
| ReconcileProperties.RunIsNonDestructive | scripts/services/check-removed-services.js:81-90 | no run deletes a file; every added or changed file is named after a missing service |
| ReconcileProperties.OnDiskServicesUntouched | scripts/services/check-removed-services.js:81-83 | the `<id>.yml` of a service present on disk by id is neither created nor rewritten |
| ReconcileProperties.RunRestoresMissing | scripts/services/check-removed-services.js:85-88 | after a run without error, each missing service's file holds the dump of the last missing record with that id, and every declared service is on disk by id or has its file |
| ReconcileProperties.NothingMissingNothingDone | scripts/services/check-removed-services.js:85-90 | with the artifact loaded as an array, the run ends without error and logs nothing exactly when no declared service is missing; it then writes nothing |
| ReconcileProperties.WarningListsMissingIds | scripts/services/check-removed-services.js:88-89 | a successful restoring run logs one warning holding the missing ids in declared order, joined by ", "; the ids can be read back when none contains a comma |
| ReconcileProperties.FailingNameNotWrittenBefore | scripts/services/check-removed-services.js:42-47 | the file whose write fails is not among the files written before it |
| ReconcileProperties.FailedWalkIdempotent | scripts/services/check-removed-services.js:37-49 | repeating the writes before a failing write, and the failed write, leaves the directory as doing them once |
| ReconcileProperties.WriteFailureKeepsEarlierWrites | scripts/services/check-removed-services.js:42-48 | a failing write ends the run naming the first unwritable missing file, with no warning; every other file is as the earlier writes left it; the failing file is unchanged or holds what the failed write left |
| ReconcileProperties.RunIdempotent | scripts/services/check-removed-services.js:71-91 | a second run with the same environment, the on-disk index included, leaves directory and report as the first run did |
| ReconcileProperties.OneOfTwoMissing | scripts/services/check-removed-services.js:81-89 | declared `svc1` and `svc2` with `svc1` on disk: only `svc2.yml` is written, with the dump of `svc2`, and the warning names `svc2` alone |
| ReconcileProperties.MismatchedIdIsOverwritten | scripts/services/check-removed-services.js:79-83 | `foo.yml` whose content declares id `bar` is overwritten with the dump of the declared `foo` |

## Left out

- File I/O and paths (`fs/promises`, `path.resolve`, `path.join`, `__dirname`): the services directory is one map from file name to content. An id holding `/` or `..` would make `path.join` write elsewhere. The model treats every id as a plain file name.
- FileNameInjective and OnDiskServicesUntouched assume a case-sensitive file system with no Unicode normalisation of file names, because the directory is a map keyed by exact strings. The script compares ids with `===` but does not control how the file system names files. On a case-insensitive file system (the macOS and Windows defaults), a missing `Foo` writes `Foo.yml`, and that overwrites the `foo.yml` of the on-disk service `foo`.
- `JSON.parse` and `yaml.dump` are foreign library calls. They are parameters: `parse` gives the parse outcome and the `blocked_services` value, and `dump` is an arbitrary deterministic function. The `lineWidth: -1` option, which stops long lines from wrapping, belongs to `dump` and is not modelled.
- The contents of the records: each record is an `id` string plus its other fields kept as JSON text. Array elements that are not objects, and records without a string `id`, are not modelled.
- The on-disk index helper (`getServiceFilesContent`) is not part of this model. Its result is an input sequence of `{id, content}` descriptors. The `servicesFileNames` and `distFilePath` arguments only reach that helper. The source calls it after the shape check; the model cannot express "not called", so `ShapeErrorWritesNothing` states instead that a shape-error run does not depend on its result.
- Why a write fails (permissions, a full disk): the model fixes a set of file names whose writes fail, and what each failed write leaves in its file. A failure that depends on the order of writes, such as a disk filling up after some writes, is not modelled.
- The logger module: messages are returned in `Report.log`. The thrown errors carry a cause (`LoadCause`, the failing file name) instead of the text of the wrapped JavaScript error.
- `async`/`await`: writes run one after another and nothing runs concurrently. The recursion over the tail of the list is modelled as a loop.
- The TODO notes (an svg check, merging restored files, taking the id from the file name) describe work that is not implemented, so they are not modelled.
