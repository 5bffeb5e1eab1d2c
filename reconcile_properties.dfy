/**
 * What a run of the restoration promises: failures to load or a malformed
 * artifact change nothing, the missing list is exactly the declared services
 * absent from disk, files are only ever added or rewritten under the names of
 * missing ids, the warning names exactly the restored ids, and a second run
 * with the same on-disk index changes nothing more.
 */
module ReconcileProperties {
  import opened ServiceModel
  import opened CheckRemovedServices

  // ---------------------------------------------------------------------------
  // The write walk

  /** Writing over a base directory is the same as laying the writes over it. */
  lemma {:induction false} WrittenOverlay(base: map<string, Content>, files: map<string, Content>,
                                          records: seq<Service>, dump: Service -> Content)
    ensures Written(base + files, records, dump) == base + Written(files, records, dump)
    decreases |records|
  {
    if |records| > 0 {
      var k, v := FileName(records[0].id), dump(records[0]);
      assert (base + files)[k := v] == base + files[k := v];
      WrittenOverlay(base, files[k := v], records[1..], dump);
    }
  }

  /** Writing the same list twice leaves the directory as writing it once. */
  lemma WrittenIdempotent(files: map<string, Content>, records: seq<Service>, dump: Service -> Content)
    ensures Written(Written(files, records, dump), records, dump) == Written(files, records, dump)
  {
    var w := Written(map[], records, dump);
    assert files + map[] == files;
    WrittenOverlay(files, map[], records, dump);
    assert (files + w) + map[] == files + w;
    WrittenOverlay(files + w, map[], records, dump);
    assert (files + w) + w == files + w;
  }

  /**
   * The walk deletes nothing, adds only files named after the records, and
   * leaves every other file as it was.
   */
  lemma {:induction false} WrittenFrame(files: map<string, Content>, records: seq<Service>, dump: Service -> Content)
    ensures Written(files, records, dump).Keys == files.Keys + FileNames(records)
    ensures forall k :: k in files && k !in FileNames(records) ==> Written(files, records, dump)[k] == files[k]
    decreases |records|
  {
    if |records| > 0 {
      var k, v := FileName(records[0].id), dump(records[0]);
      WrittenFrame(files[k := v], records[1..], dump);
      assert records == [records[0]] + records[1..];
      assert FileNames(records) == {k} + FileNames(records[1..]);
    }
  }

  /** A record with no later record of the same id ends up as the content of its file. */
  lemma {:induction false} WrittenLastWins(files: map<string, Content>, records: seq<Service>,
                                           dump: Service -> Content, i: nat)
    requires i < |records|
    requires forall j :: i < j < |records| ==> records[j].id != records[i].id
    ensures FileName(records[i].id) in Written(files, records, dump)
    ensures Written(files, records, dump)[FileName(records[i].id)] == dump(records[i])
    decreases |records|
  {
    var k, v := FileName(records[0].id), dump(records[0]);
    if i == 0 {
      forall r | r in records[1..] ensures FileName(r.id) != k {
        var j :| 0 <= j < |records[1..]| && records[1..][j] == r;
        assert records[j + 1] == r;
        FileNameInjective(r.id, records[0].id);
      }
      WrittenFrame(files[k := v], records[1..], dump);
    } else {
      WrittenLastWins(files[k := v], records[1..], dump, i - 1);
    }
  }

  /** The names written before a failing write are among the names of all the records. */
  lemma PrefixFileNames(records: seq<Service>, k: nat)
    requires k <= |records|
    ensures FileNames(records[..k]) <= FileNames(records)
  {
  }

  // ---------------------------------------------------------------------------
  // The missing list

  /** A service is in the missing list exactly when it is declared and no descriptor carries its id. */
  lemma DifferencesMembership(declared: seq<Service>, serviceFiles: seq<ServiceFile>, s: Service)
    ensures s in Differences(declared, serviceFiles) <==>
            s in declared && forall i :: 0 <= i < |serviceFiles| ==> serviceFiles[i].id != s.id
  {
  }

  /** No file named after the id of an on-disk descriptor is among the names of the missing services. */
  lemma OnDiskNamesNotMissing(declared: seq<Service>, serviceFiles: seq<ServiceFile>, f: ServiceFile)
    requires f in serviceFiles
    ensures FileName(f.id) !in FileNames(Differences(declared, serviceFiles))
  {
    var m := Differences(declared, serviceFiles);
    if FileName(f.id) in FileNames(m) {
      var r :| r in m && FileName(f.id) == FileName(r.id);
      FileNameInjective(f.id, r.id);
      DifferencesMembership(declared, serviceFiles, r);
      assert false;
    }
  }

  // ---------------------------------------------------------------------------
  // A run

  /**
   * A source artifact that cannot be read or parsed ends the run with a load
   * error, one error-level line naming the path, and no write.
   */
  lemma LoadFailureWritesNothing(files: map<string, Content>, path: string, env: Env)
    requires env.source.ReadFailed? || !env.parse(env.source.text).Document?
    ensures var out := Reconcile(files, path, env);
            && out.files == files
            && out.report.failure.Some? && out.report.failure.value.LoadError?
            && out.report.log == [LogEntry(ErrorLevel, ReadErrorMessage(path))]
  {
  }

  /**
   * A `blocked_services` value that is not an array ends the run with a shape
   * error and no write, whatever is on disk, whatever can be written and
   * however records would be dumped.
   */
  lemma ShapeErrorWritesNothing(files: map<string, Content>, path: string, env: Env,
                                serviceFiles: seq<ServiceFile>, unwritable: set<string>,
                                leftBehind: string -> Option<Content>, dump: Service -> Content)
    requires env.source.ReadOk? && env.parse(env.source.text) == Document(NotAnArray)
    ensures Reconcile(files, path, env) == Outcome(files, Report([], Some(ShapeError(NotAnArrayMessage))))
    ensures Reconcile(files, path, env.(serviceFiles := serviceFiles, unwritable := unwritable,
                                        leftBehind := leftBehind, dump := dump))
            == Reconcile(files, path, env)
  {
  }

  /**
   * No run deletes a file; a file that is added or whose content changes is
   * named after a missing service.
   */
  lemma RunIsNonDestructive(files: map<string, Content>, path: string, env: Env)
    ensures var out := Reconcile(files, path, env);
            && files.Keys <= out.files.Keys
            && (forall k :: k in out.files && k !in files ==> k in FileNames(Missing(path, env)))
            && (forall k :: k in files && k !in FileNames(Missing(path, env)) ==> out.files[k] == files[k])
  {
    var loaded := GetBlockedServicesData(path, env.source, env.parse);
    if loaded.data.Success? && loaded.data.value.ServiceArray? {
      var m := Missing(path, env);
      var k := FirstUnwritable(m, env.unwritable);
      WrittenFrame(files, m[..k], env.dump);
      PrefixFileNames(m, k);
      if k < |m| {
        assert m[k] in m;
      }
    }
  }

  /** The file of a service that is present on disk (by id) is neither created nor rewritten. */
  lemma OnDiskServicesUntouched(files: map<string, Content>, path: string, env: Env, f: ServiceFile)
    requires f in env.serviceFiles
    ensures var out := Reconcile(files, path, env);
            && (FileName(f.id) in out.files <==> FileName(f.id) in files)
            && (FileName(f.id) in files ==> out.files[FileName(f.id)] == files[FileName(f.id)])
  {
    RunIsNonDestructive(files, path, env);
    OnDiskNamesNotMissing(Declared(path, env), env.serviceFiles, f);
  }

  /**
   * After a run that ends without error, every missing service's file holds
   * the dump of the last missing record with that id, and every declared
   * service either is on disk (by id) or has its file in the directory.
   */
  lemma RunRestoresMissing(files: map<string, Content>, path: string, env: Env)
    requires Reconcile(files, path, env).report.failure.None?
    ensures var out := Reconcile(files, path, env); var m := Missing(path, env);
            forall i :: 0 <= i < |m| && (forall j :: i < j < |m| ==> m[j].id != m[i].id) ==>
              FileName(m[i].id) in out.files && out.files[FileName(m[i].id)] == env.dump(m[i])
    ensures var out := Reconcile(files, path, env);
            forall r :: r in Declared(path, env) ==> !IsMissing(r, env.serviceFiles) || FileName(r.id) in out.files
  {
    var out := Reconcile(files, path, env);
    var m := Missing(path, env);
    if |m| > 0 {
      assert FirstUnwritable(m, env.unwritable) == |m|;
      assert m[..|m|] == m;
      assert out.files == Written(files, m, env.dump);
      forall i | 0 <= i < |m| && (forall j :: i < j < |m| ==> m[j].id != m[i].id)
        ensures FileName(m[i].id) in out.files && out.files[FileName(m[i].id)] == env.dump(m[i])
      {
        WrittenLastWins(files, m, env.dump, i);
      }
      WrittenFrame(files, m, env.dump);
    }
    forall r | r in Declared(path, env) && IsMissing(r, env.serviceFiles) ensures FileName(r.id) in out.files {
      DifferencesMembership(Declared(path, env), env.serviceFiles, r);
      assert FileName(r.id) in FileNames(m);
    }
  }

  /**
   * Once the artifact is loaded as an array, a run neither writes nor warns
   * exactly when no declared service is missing.
   */
  lemma NothingMissingNothingDone(files: map<string, Content>, path: string, env: Env)
    requires env.source.ReadOk? && env.parse(env.source.text).Document?
    requires env.parse(env.source.text).blockedServices.ServiceArray?
    ensures var out := Reconcile(files, path, env);
            (out.report == Report([], None) <==> |Missing(path, env)| == 0)
    ensures |Missing(path, env)| == 0 ==> Reconcile(files, path, env).files == files
  {
  }

  /**
   * A run that restores services without error logs one warning, which lists
   * the missing ids in declared order joined by ", "; when no id contains a
   * comma the ids can be read back from it.
   */
  lemma WarningListsMissingIds(files: map<string, Content>, path: string, env: Env)
    requires Reconcile(files, path, env).report.failure.None?
    requires |Missing(path, env)| > 0
    ensures var out := Reconcile(files, path, env);
            out.report.log == [LogEntry(WarningLevel, WarningMessage(Ids(Missing(path, env))))]
    ensures var m := Missing(path, env);
            (forall i :: 0 <= i < |m| ==> ',' !in m[i].id) ==>
              RestoredIds(WarningMessage(Ids(m))) == Ids(m)
  {
    var m := Missing(path, env);
    var ids := Ids(m);
    if forall i :: 0 <= i < |m| ==> ',' !in m[i].id {
      var w := WarningMessage(ids);
      var joined := Join(ids, IdSeparator);
      assert w[|WarningPrefix|..|w| - |WarningSuffix|] == joined;
      SplitJoin(ids, IdSeparator);
    }
  }

  /** The file whose write fails is not among the files written before it. */
  lemma FailingNameNotWrittenBefore(m: seq<Service>, unwritable: set<string>)
    requires FirstUnwritable(m, unwritable) < |m|
    ensures var k := FirstUnwritable(m, unwritable);
            FileName(m[k].id) !in FileNames(m[..k])
  {
    var k := FirstUnwritable(m, unwritable);
    forall r | r in m[..k] ensures FileName(r.id) != FileName(m[k].id) {
      var j :| 0 <= j < k && m[..k][j] == r;
    }
  }

  /**
   * Repeating the writes before a failing one, and the failing write, leaves
   * the directory as doing them once.
   */
  lemma FailedWalkIdempotent(files: map<string, Content>, records: seq<Service>, name: string,
                             leftBehind: Option<Content>, dump: Service -> Content)
    requires name !in FileNames(records)
    ensures var once := AfterFailedWrite(Written(files, records, dump), name, leftBehind);
            AfterFailedWrite(Written(once, records, dump), name, leftBehind) == once
  {
    var w := Written(files, records, dump);
    WrittenIdempotent(files, records, dump);
    if leftBehind.Some? {
      var c := leftBehind.value;
      var x := w[name := c];
      var wp := Written(map[], records, dump);
      assert files + map[] == files;
      WrittenOverlay(files, map[], records, dump);
      assert x + map[] == x;
      WrittenOverlay(x, map[], records, dump);
      WrittenFrame(map[], records, dump);
      assert (x + wp)[name := c] == x;
    }
  }

  /**
   * A failing write ends the run with that file's name and without a warning.
   * The writes of the missing services before it stay; every other file is
   * as those writes left it, and the failing file is as the failed write left it.
   */
  lemma WriteFailureKeepsEarlierWrites(files: map<string, Content>, path: string, env: Env)
    requires var f := Reconcile(files, path, env).report.failure; f.Some? && f.value.WriteError?
    ensures var out := Reconcile(files, path, env); var m := Missing(path, env);
            && out.report.log == []
            && exists k :: 0 <= k < |m|
                 && out.report.failure == Some(WriteError(FileName(m[k].id)))
                 && FileName(m[k].id) in env.unwritable
                 && (forall j :: 0 <= j < k ==> FileName(m[j].id) !in env.unwritable)
                 && var w := Written(files, m[..k], env.dump); var name := FileName(m[k].id);
                    && out.files == AfterFailedWrite(w, name, env.leftBehind(name))
                    && (forall n :: n != name ==> (n in out.files <==> n in w))
                    && (forall n :: n != name && n in w ==> out.files[n] == w[n])
  {
    var m := Missing(path, env);
    var k := FirstUnwritable(m, env.unwritable);
    assert 0 <= k < |m|;
  }

  /**
   * Running twice with the same environment, the on-disk index included, ends
   * as running once, directory and report alike. A real second run re-reads
   * the index from disk, which the first run may have changed.
   */
  lemma RunIdempotent(files: map<string, Content>, path: string, env: Env)
    ensures var once := Reconcile(files, path, env);
            Reconcile(once.files, path, env) == once
  {
    var loaded := GetBlockedServicesData(path, env.source, env.parse);
    if loaded.data.Success? && loaded.data.value.ServiceArray? {
      var m := Missing(path, env);
      var k := FirstUnwritable(m, env.unwritable);
      if k < |m| {
        var name := FileName(m[k].id);
        FailingNameNotWrittenBefore(m, env.unwritable);
        FailedWalkIdempotent(files, m[..k], name, env.leftBehind(name), env.dump);
      } else {
        WrittenIdempotent(files, m[..k], env.dump);
      }
    }
  }

  // ---------------------------------------------------------------------------
  // Scenarios

  /**
   * Declared `svc1` and `svc2`, with `svc1` on disk: only `svc2.yml` is
   * written, with the dump of `svc2`, and the warning names `svc2` alone.
   */
  lemma OneOfTwoMissing(env: Env, svc1: Service, svc2: Service, c1: Content)
    requires svc1.id == "svc1" && svc2.id == "svc2"
    requires env.source.ReadOk? && env.parse(env.source.text) == Document(ServiceArray([svc1, svc2]))
    requires env.serviceFiles == [ServiceFile("svc1", c1)] && env.unwritable == {}
    ensures var out := Reconcile(map["svc1.yml" := c1], "services.json", env);
            && out.files == map["svc1.yml" := c1, "svc2.yml" := env.dump(svc2)]
            && out.report == Report([LogEntry(WarningLevel, WarningMessage(["svc2"]))], None)
  {
    assert Find(env.serviceFiles, svc1.id).Some?;
    assert Find(env.serviceFiles, svc2.id).None?;
    assert [svc1, svc2][1..] == [svc2] && [svc2][1..] == [];
    assert Differences([svc2], env.serviceFiles) == [svc2];
    var m := Differences([svc1, svc2], env.serviceFiles);
    assert m == [svc2];
    assert m[..1] == [svc2];
    assert FileName("svc2") == "svc2.yml";
    assert Ids(m) == ["svc2"];
    assert Written(map["svc1.yml" := c1], [svc2], env.dump) == map["svc1.yml" := c1]["svc2.yml" := env.dump(svc2)];
  }

  /**
   * The on-disk id is read from inside each file, not from its name: a file
   * `foo.yml` whose content declares the id `bar` does not count for `foo`,
   * so a declared `foo` is treated as missing and its file is overwritten.
   */
  lemma MismatchedIdIsOverwritten(env: Env, foo: Service, stale: Content)
    requires foo.id == "foo"
    requires env.source.ReadOk? && env.parse(env.source.text) == Document(ServiceArray([foo]))
    requires env.serviceFiles == [ServiceFile("bar", stale)] && env.unwritable == {}
    ensures var out := Reconcile(map["foo.yml" := stale], "services.json", env);
            out.files == map["foo.yml" := env.dump(foo)]
  {
    assert Find(env.serviceFiles, foo.id).None?;
    assert [foo][1..] == [];
    assert Differences([foo], env.serviceFiles) == [foo];
    assert FileName("foo") == "foo.yml";
    assert [foo][..1] == [foo];
    assert Written(map["foo.yml" := stale], [foo], env.dump) == map["foo.yml" := stale]["foo.yml" := env.dump(foo)];
  }
}
