/** Publication of a fixture set, `write_output` against `_validate_destination_fd`
    (scripts/sanitize_nim_capture.py): every file is written under a temporary name and renamed,
    and the manifest, which binds the others by digest, comes last. */
module Publication {
  import opened Wrappers

  type Content = string
  type Files = map<string, Content>

  datatype Fixture = Fixture(name: string, captureDate: string, transport: string, payload: string)

  datatype Entry = Entry(name: string, file: string, sha256: string, captureDate: string, transport: string)

  datatype Manifest = Manifest(fixtures: seq<Entry>, evidence: string)

  /** What validation computes with but this model does not open up. */
  datatype Checks = Checks(
    fixture: (string, Content) -> Option<Fixture>,  // _validate_fixture
    sha256: Content -> string,
    evidence: seq<Fixture> -> string,               // evidence_rows
    load: Content -> Option<Manifest>,              // json.loads and the checks of its fields
    dump: Manifest -> Content)

  const MANIFEST := "manifest.json"

  /** The fixture files, in the order they are replaced. */
  const FIXTURES: seq<string> :=
    ["buffered-basic.json", "buffered-tools.json", "streamed-basic.json", "streamed-tools.json"]

  function Temporary(name: string): string {
    "." + name + ".tmp"
  }

  /** `manifest_for`. */
  function ManifestFor(c: Checks, files: Files): (m: Option<Manifest>)
    requires forall i :: 0 <= i < |FIXTURES| ==> FIXTURES[i] in files
    ensures m.Some? ==> |m.value.fixtures| == |FIXTURES|
    ensures m.Some? ==> forall i :: 0 <= i < |FIXTURES| ==>
              m.value.fixtures[i].sha256 == c.sha256(files[FIXTURES[i]])
  {
    if exists i :: 0 <= i < |FIXTURES| && c.fixture(FIXTURES[i], files[FIXTURES[i]]).None? then None
    else
      var entries := seq(|FIXTURES|, i requires 0 <= i < |FIXTURES| =>
        var f := c.fixture(FIXTURES[i], files[FIXTURES[i]]).value;
        Entry(f.name, FIXTURES[i], c.sha256(files[FIXTURES[i]]), f.captureDate, f.transport));
      var fixtures := seq(|FIXTURES|, i requires 0 <= i < |FIXTURES| =>
        c.fixture(FIXTURES[i], files[FIXTURES[i]]).value);
      Some(Manifest(entries, c.evidence(fixtures)))
  }

  predicate Complete(files: Files) {
    files.Keys == (set name | name in FIXTURES) + {MANIFEST}
  }

  /** `_validate_destination_fd`; `lax` is `allow_stale_evidence`. */
  predicate Accepted(c: Checks, files: Files, lax: bool) {
    Complete(files) &&
    var expected := ManifestFor(c, files);
    var manifest := c.load(files[MANIFEST]);
    expected.Some? && manifest.Some?
    && (if lax then manifest.value.fixtures == expected.value.fixtures else manifest == expected)
    && c.dump(manifest.value) == files[MANIFEST]
  }

  // ---------- what acceptance asks ----------

  /** The manifest entry of a fixture file as it stands. */
  predicate Describes(c: Checks, files: Files, file: string, e: Entry) {
    file in files && c.fixture(file, files[file]).Some? &&
    var f := c.fixture(file, files[file]).value;
    e.name == f.name && e.file == file && e.sha256 == c.sha256(files[file]) &&
    e.captureDate == f.captureDate && e.transport == f.transport
  }

  /** The four fixtures and the manifest and nothing else; the manifest is written as `dump` writes
      it and describes each fixture as it stands, in order. */
  predicate Described(c: Checks, files: Files) {
    files.Keys == {"buffered-basic.json", "buffered-tools.json", "streamed-basic.json", "streamed-tools.json", "manifest.json"} &&
    c.load(files["manifest.json"]).Some? &&
    var m := c.load(files["manifest.json"]).value;
    c.dump(m) == files["manifest.json"] && |m.fixtures| == 4 &&
    Describes(c, files, "buffered-basic.json", m.fixtures[0]) && Describes(c, files, "buffered-tools.json", m.fixtures[1]) &&
    Describes(c, files, "streamed-basic.json", m.fixtures[2]) && Describes(c, files, "streamed-tools.json", m.fixtures[3])
  }

  /** The evidence that the fixtures as they stand give. */
  predicate Current(c: Checks, files: Files)
    requires Described(c, files)
  {
    c.load(files["manifest.json"]).value.evidence ==
      c.evidence([c.fixture("buffered-basic.json", files["buffered-basic.json"]).value,
                  c.fixture("buffered-tools.json", files["buffered-tools.json"]).value,
                  c.fixture("streamed-basic.json", files["streamed-basic.json"]).value,
                  c.fixture("streamed-tools.json", files["streamed-tools.json"]).value])
  }

  lemma FixturesAre()
    ensures |FIXTURES| == 4 && FIXTURES[0] == "buffered-basic.json" && FIXTURES[1] == "buffered-tools.json"
    ensures FIXTURES[2] == "streamed-basic.json" && FIXTURES[3] == "streamed-tools.json" && MANIFEST == "manifest.json"
  {
  }

  lemma CompleteIs(files: Files)
    ensures Complete(files) <==>
            files.Keys == {"buffered-basic.json", "buffered-tools.json", "streamed-basic.json", "streamed-tools.json", "manifest.json"}
  {
    assert (set name | name in FIXTURES) + {MANIFEST} ==
           {"buffered-basic.json", "buffered-tools.json", "streamed-basic.json", "streamed-tools.json", "manifest.json"};
  }

  lemma EntriesAre(c: Checks, files: Files, m: Manifest)
    requires Complete(files)
    ensures ManifestFor(c, files).Some? <==> forall i :: 0 <= i < |FIXTURES| ==> c.fixture(FIXTURES[i], files[FIXTURES[i]]).Some?
    ensures ManifestFor(c, files).Some? ==>
              (m.fixtures == ManifestFor(c, files).value.fixtures <==>
               |m.fixtures| == 4 && forall i :: 0 <= i < 4 ==> Describes(c, files, FIXTURES[i], m.fixtures[i]))
  {
    if ManifestFor(c, files).Some? {
      var expected := ManifestFor(c, files).value.fixtures;
      forall i | 0 <= i < 4 && i < |m.fixtures| ensures m.fixtures[i] == expected[i] <==> Describes(c, files, FIXTURES[i], m.fixtures[i]) {
      }
    }
  }

  lemma EvidenceIs(c: Checks, files: Files)
    requires Complete(files) && ManifestFor(c, files).Some?
    ensures ManifestFor(c, files).value.evidence ==
            c.evidence([c.fixture(FIXTURES[0], files[FIXTURES[0]]).value, c.fixture(FIXTURES[1], files[FIXTURES[1]]).value,
                        c.fixture(FIXTURES[2], files[FIXTURES[2]]).value, c.fixture(FIXTURES[3], files[FIXTURES[3]]).value])
  {
    var fixtures := seq(|FIXTURES|, i requires 0 <= i < |FIXTURES| => c.fixture(FIXTURES[i], files[FIXTURES[i]]).value);
    assert fixtures == [fixtures[0], fixtures[1], fixtures[2], fixtures[3]];
  }

  /** Leniently a set is accepted exactly when its manifest describes it, strictly exactly when the
      evidence is that of its fixtures as well. */
  lemma AcceptedIff(c: Checks, files: Files)
    ensures Accepted(c, files, true) <==> Described(c, files)
    ensures Accepted(c, files, false) <==> Described(c, files) && Current(c, files)
  {
    CompleteIs(files);
    FixturesAre();
    if Complete(files) && c.load(files[MANIFEST]).Some? {
      DescribedIff(c, files, c.load(files[MANIFEST]).value);
      if ManifestFor(c, files).Some? {
        EvidenceIs(c, files);
      }
    }
  }

  lemma DescribedIff(c: Checks, files: Files, m: Manifest)
    requires Complete(files) && c.load(files[MANIFEST]) == Some(m)
    ensures Described(c, files) <==>
            ManifestFor(c, files).Some? && m.fixtures == ManifestFor(c, files).value.fixtures && c.dump(m) == files[MANIFEST]
  {
    CompleteIs(files);
    FixturesAre();
    EntriesAre(c, files, m);
    if Described(c, files) {
      forall i | 0 <= i < |FIXTURES| ensures c.fixture(FIXTURES[i], files[FIXTURES[i]]).Some? && Describes(c, files, FIXTURES[i], m.fixtures[i]) {
        assert i == 0 || i == 1 || i == 2 || i == 3;
      }
    }
  }

  /** An accepted set whose evidence goes stale is still accepted leniently, so that the next set
      can be published over it, and no longer strictly. */
  lemma StaleEvidence(c: Checks, files: Files, evidence: string)
    requires Accepted(c, files, false) && evidence != c.load(files[MANIFEST]).value.evidence
    requires var m := c.load(files[MANIFEST]).value.(evidence := evidence); c.load(c.dump(m)) == Some(m)
    ensures var stale := files[MANIFEST := c.dump(c.load(files[MANIFEST]).value.(evidence := evidence))];
            Accepted(c, stale, true) && !Accepted(c, stale, false)
  {
    var stale := files[MANIFEST := c.dump(c.load(files[MANIFEST]).value.(evidence := evidence))];
    AcceptedIff(c, files);
    AcceptedIff(c, stale);
    assert stale.Keys == files.Keys;
  }

  ghost predicate InjectiveDigest(c: Checks) {
    forall a, b :: c.sha256(a) == c.sha256(b) ==> a == b
  }

  /** An accepted set is determined by its manifest file: the digests bind every fixture. */
  lemma ManifestBinds(c: Checks, a: Files, b: Files)
    requires InjectiveDigest(c) && Accepted(c, a, true) && Accepted(c, b, true)
    requires a[MANIFEST] == b[MANIFEST]
    ensures a == b
  {
    forall i | 0 <= i < |FIXTURES| ensures SameAt(a, b, FIXTURES[i]) {
      DigestRecorded(c, a, i);
      DigestRecorded(c, b, i);
    }
    SameFiles(a, b);
  }

  predicate SameAt(a: Files, b: Files, name: string) {
    name in a && name in b && a[name] == b[name]
  }

  lemma SameFiles(a: Files, b: Files)
    requires Complete(a) && Complete(b) && a[MANIFEST] == b[MANIFEST]
    requires forall i :: 0 <= i < |FIXTURES| ==> SameAt(a, b, FIXTURES[i])
    ensures a == b
  {
    assert a.Keys == b.Keys;
    forall name | name in a ensures a[name] == b[name] {
      assert name in a.Keys;
      if name != MANIFEST {
        var i :| 0 <= i < |FIXTURES| && FIXTURES[i] == name;
        assert SameAt(a, b, FIXTURES[i]);
      }
    }
  }

  lemma DigestRecorded(c: Checks, files: Files, i: nat)
    requires Accepted(c, files, true) && i < |FIXTURES|
    ensures FIXTURES[i] in files && c.load(files[MANIFEST]).Some?
    ensures var m := c.load(files[MANIFEST]).value;
            i < |m.fixtures| && m.fixtures[i].sha256 == c.sha256(files[FIXTURES[i]])
  {
  }

  /** Strict acceptance implies lax acceptance. */
  lemma StrictIsLax(c: Checks, files: Files)
    requires Accepted(c, files, false)
    ensures Accepted(c, files, true)
  {
  }

  // ---------- the directory ----------

  predicate Expected(name: string) {
    name in FIXTURES || name == MANIFEST
  }

  /** `base`, and beside it an unfinished or unrenamed temporary file for `name`. */
  predicate Half(state: Files, base: Files, name: string) {
    Temporary(name) in state && state - {Temporary(name)} == base
  }

  /** The destination directory, with every state it has been in and whether any system call has
      failed so far. */
  class Directory {
    var files: Files
    ghost var history: seq<Files>
    ghost var failed: bool

    constructor (initial: Files)
      ensures Valid() && files == initial && history == [initial] && !failed
    {
      files, history, failed := initial, [initial], false;
    }

    ghost predicate Valid()
      reads this
    {
      history != [] && history[|history| - 1] == files
    }

    /** The states since `was` are `before`, or that with a temporary file for `name`, or have `done`. */
    ghost predicate Went(was: seq<Files>, before: Files, name: string, done: Files)
      reads this
    {
      was <= history &&
      forall k :: |was| <= k < |history| ==> history[k] == before || history[k] == done || Half(history[k], before, name)
    }

    method Store(name: string, content: Content)
      modifies this
      ensures Valid() && files == old(files)[name := content]
      ensures history == old(history) + [files] && failed == old(failed)
    {
      files := files[name := content];
      history := history + [files];
    }

    method Unlink(name: string)
      modifies this
      ensures Valid() && files == old(files) - {name}
      ensures history == old(history) + [files] && failed == old(failed)
    {
      files := files - {name};
      history := history + [files];
    }

    /** `os.replace`: atomic, over any file of the target name. */
    method Rename(source: string, target: string)
      requires source in files && source != target
      modifies this
      ensures Valid() && files == old(files)[target := old(files)[source]] - {source}
      ensures history == old(history) + [files] && failed == old(failed)
    {
      files := files[target := files[source]] - {source};
      history := history + [files];
    }

    /** Whether the next system call succeeds. */
    method Works() returns (ok: bool)
      modifies `failed
      ensures ok ==> failed == old(failed)
      ensures !ok ==> failed
    {
      ok := *;
      if !ok { failed := true; }
    }

    /** `_write_all`: in pieces of any size. */
    method WriteAll(name: string, content: Content) returns (ok: bool)
      requires Valid() && Temporary(name) !in files
      modifies this
      ensures Valid() && Went(old(history), old(files), name, old(files))
      ensures ok ==> files == old(files)[Temporary(name) := content] && failed == old(failed)
      ensures !ok ==> failed && Half(files, old(files), name)
    {
      Store(Temporary(name), "");
      var written := 0;
      while written < |content|
        invariant 0 <= written <= |content|
        invariant files == old(files)[Temporary(name) := content[..written]] && failed == old(failed)
        invariant Valid() && Went(old(history), old(files), name, old(files))
      {
        ok := Works();
        if !ok { return; }
        var n: nat :| 0 < n <= |content| - written;
        written := written + n;
        Store(Temporary(name), content[..written]);
      }
      assert content[..|content|] == content;
      ok := Works();
    }

    /** `_write_private_at`: what cannot be finished is unlinked, if that works. */
    method WritePrivate(name: string, content: Content) returns (ok: bool)
      requires Valid() && Temporary(name) !in files
      modifies this
      ensures Valid() && Went(old(history), old(files), name, old(files))
      ensures ok ==> files == old(files)[Temporary(name) := content] && failed == old(failed)
      ensures !ok ==> failed && (files == old(files) || Half(files, old(files), name))
    {
      ok := Works();
      if !ok { return; }
      ok := WriteAll(name, content);
      if !ok {
        var unlinked := Works();
        if unlinked {
          Unlink(Temporary(name));
        }
      }
    }

    /** Write under the temporary name, then rename: nothing but the target changes, and if a call
        fails nothing but the temporary file is left behind. */
    method Publish(name: string, content: Content) returns (ok: bool)
      requires Valid() && Temporary(name) !in files
      modifies this
      ensures Valid() && Went(old(history), old(files), name, old(files)[name := content])
      ensures ok ==> files == old(files)[name := content] && failed == old(failed)
      ensures !ok ==> failed && (files == old(files) || Half(files, old(files), name))
    {
      assert |Temporary(name)| != |name|;
      ok := WritePrivate(name, content);
      if !ok { return; }
      ok := Works();
      if ok {
        Rename(Temporary(name), name);
        assert files == old(files)[name := content];
      }
    }
  }

  lemma TemporaryUnexpected(name: string)
    ensures !Expected(Temporary(name))
  {
    assert Temporary(name)[0] == '.';
    assert forall f :: f in FIXTURES ==> f[0] != '.';
  }

  // ---------- publishing a set ----------

  /** The order in which the files are replaced: the manifest last. */
  const ORDER: seq<string> := FIXTURES + [MANIFEST]

  lemma OrderIs()
    ensures |ORDER| == |FIXTURES| + 1 && ORDER[|FIXTURES|] == MANIFEST
    ensures forall name :: name in ORDER <==> Expected(name)
    ensures forall i, j :: 0 <= i < j < |ORDER| ==> ORDER[i] != ORDER[j]
  {
  }

  predicate OnlyExpected(files: Files) {
    forall name :: name in files ==> Expected(name)
  }

  /** The first `i` files have been replaced. */
  function Partly(before: Files, after: Files, i: nat): Files
    requires i <= |ORDER| && Complete(after)
  {
    if i == 0 then before
    else
      OrderIs();
      Partly(before, after, i - 1)[ORDER[i - 1] := after[ORDER[i - 1]]]
  }

  /** `i` files have been replaced, and perhaps the next one is being written. */
  predicate Stage(state: Files, before: Files, after: Files, i: nat)
    requires i <= |ORDER| && Complete(after)
  {
    state == Partly(before, after, i) || (i < |ORDER| && Half(state, Partly(before, after, i), ORDER[i]))
  }

  ghost predicate Reached(state: Files, before: Files, after: Files)
    requires Complete(after)
  {
    exists i :: 0 <= i <= |ORDER| && Stage(state, before, after, i)
  }

  ghost predicate AllReached(history: seq<Files>, start: nat, before: Files, after: Files)
    requires Complete(after)
  {
    forall k :: start <= k < |history| ==> Reached(history[k], before, after)
  }

  lemma {:induction false} PartlyAt(before: Files, after: Files, i: nat, name: string)
    requires i <= |ORDER| && Complete(after)
    ensures var p := Partly(before, after, i);
            (name in p <==> name in before || name in ORDER[..i]) &&
            (name in p ==> p[name] == if name in ORDER[..i] then after[name] else before[name])
  {
    OrderIs();
    if i > 0 {
      PartlyAt(before, after, i - 1, name);
      assert ORDER[..i] == ORDER[..i - 1] + [ORDER[i - 1]];
    }
  }

  lemma PartlyDone(before: Files, after: Files)
    requires Complete(after) && OnlyExpected(before)
    ensures Partly(before, after, |ORDER|) == after
  {
    var p := Partly(before, after, |ORDER|);
    OrderIs();
    assert ORDER[..|ORDER|] == ORDER;
    forall name ensures name in p <==> name in after
      ensures name in p ==> p[name] == after[name]
    {
      PartlyAt(before, after, |ORDER|, name);
    }
  }

  /** Until the last replacement the manifest is the old one, or none. */
  lemma PartlyManifest(before: Files, after: Files, i: nat)
    requires i < |ORDER| && Complete(after)
    ensures var p := Partly(before, after, i);
            (MANIFEST in p <==> MANIFEST in before) && (MANIFEST in before ==> p[MANIFEST] == before[MANIFEST])
  {
    OrderIs();
    PartlyAt(before, after, i, MANIFEST);
  }

  lemma PartlyExpected(before: Files, after: Files, i: nat)
    requires i <= |ORDER| && Complete(after) && OnlyExpected(before)
    ensures OnlyExpected(Partly(before, after, i))
  {
    OrderIs();
    forall name | name in Partly(before, after, i) ensures Expected(name) {
      PartlyAt(before, after, i, name);
    }
  }

  // ---------- what a reader may accept ----------

  /** If the set is accepted, it is wholly the old one or wholly the new one. */
  ghost predicate Whole(c: Checks, state: Files, before: Files, after: Files) {
    forall lax :: Accepted(c, state, lax) ==> state == before || state == after
  }

  lemma WithTemporary(c: Checks, state: Files, name: string, before: Files, after: Files)
    requires Temporary(name) in state
    ensures Whole(c, state, before, after)
  {
    TemporaryUnexpected(name);
    assert !Complete(state) by { assert Temporary(name) in state.Keys; }
  }

  /** While the manifest is the old one, or none, no mixture is accepted. */
  lemma OldManifest(c: Checks, state: Files, before: Files, after: Files)
    requires InjectiveDigest(c)
    requires before == map[] || Accepted(c, before, true)
    requires MANIFEST in before <==> MANIFEST in state
    requires MANIFEST in before ==> state[MANIFEST] == before[MANIFEST]
    ensures Whole(c, state, before, after)
  {
    forall lax | Accepted(c, state, lax) ensures state == before {
      assert MANIFEST in state.Keys;
      if !lax { StrictIsLax(c, state); }
      ManifestBinds(c, state, before);
    }
  }

  /** Every state on the way, and any in which it stops, is one of those. */
  lemma ReachedWhole(c: Checks, state: Files, before: Files, after: Files)
    requires InjectiveDigest(c) && (before == map[] || Accepted(c, before, true))
    requires Complete(after) && Reached(state, before, after)
    ensures Whole(c, state, before, after)
  {
    var i :| 0 <= i <= |ORDER| && Stage(state, before, after, i);
    BeforeExpected(c, before);
    if i < |ORDER| && Half(state, Partly(before, after, i), ORDER[i]) {
      WithTemporary(c, state, ORDER[i], before, after);
    } else if i < |ORDER| {
      PartlyManifest(before, after, i);
      OldManifest(c, state, before, after);
    } else {
      PartlyDone(before, after);
    }
  }

  /** What a reader makes of the directory that lists it, and opens each file, at moments of its own. */
  predicate ReadAcross(read: Files, history: seq<Files>, times: map<string, nat>) {
    forall name :: name in read ==>
      name in times && times[name] < |history| && name in history[times[name]] && read[name] == history[times[name]][name]
  }

  lemma ManifestOf(state: Files, before: Files, after: Files)
    requires Complete(after) && OnlyExpected(before) && Reached(state, before, after) && MANIFEST in state
    ensures state[MANIFEST] == after[MANIFEST] || (MANIFEST in before && state[MANIFEST] == before[MANIFEST])
  {
    var i :| 0 <= i <= |ORDER| && Stage(state, before, after, i);
    TemporaryUnexpected(ORDER[if i < |ORDER| then i else 0]);
    PartlyAt(before, after, i, MANIFEST);
    assert MANIFEST in Partly(before, after, i) && state[MANIFEST] == Partly(before, after, i)[MANIFEST];
  }

  /** A validation that runs alongside, reading one file at a time, accepts nothing but the old set
      or the new one. */
  lemma ConcurrentReader(c: Checks, read: Files, history: seq<Files>, times: map<string, nat>, before: Files, after: Files, lax: bool)
    requires InjectiveDigest(c) && (before == map[] || Accepted(c, before, true)) && Accepted(c, after, false)
    requires AllReached(history, 0, before, after) && ReadAcross(read, history, times) && Accepted(c, read, lax)
    ensures read == before || read == after
  {
    assert MANIFEST in read.Keys;
    var state := history[times[MANIFEST]];
    assert Reached(state, before, after);
    BeforeExpected(c, before);
    ManifestOf(state, before, after);
    if !lax { StrictIsLax(c, read); }
    StrictIsLax(c, after);
    if read[MANIFEST] == after[MANIFEST] {
      ManifestBinds(c, read, after);
    } else {
      ManifestBinds(c, read, before);
    }
  }

  lemma BeforeExpected(c: Checks, before: Files)
    requires before == map[] || Accepted(c, before, true)
    ensures OnlyExpected(before)
  {
    forall f | f in before ensures Expected(f) {
      assert f in before.Keys;
    }
  }

  // ---------- write_output ----------

  /** The set to be published: the contents and their manifest, if it is one that can be accepted. */
  function Staged(c: Checks, contents: Files): (r: Option<Files>)
    requires contents.Keys == (set name | name in FIXTURES)
    ensures r.Some? ==> Accepted(c, r.value, false) && r.value - {MANIFEST} == contents
  {
    assert MANIFEST !in contents.Keys;
    assert forall i :: 0 <= i < |FIXTURES| ==> FIXTURES[i] in contents.Keys;
    var manifest := ManifestFor(c, contents);
    if manifest.None? then None
    else
      var staged := contents[MANIFEST := c.dump(manifest.value)];
      if Accepted(c, staged, false) then Some(staged) else None
  }

  /** The run ends before anything is written. */
  predicate Refused(c: Checks, files: Files, existing: bool, contents: Files)
    requires contents.Keys == (set name | name in FIXTURES)
  {
    (existing && !Accepted(c, files, true)) || Staged(c, contents).None?
  }

  /** Contents that all parse are published with the manifest that describes them, over any
      destination whose manifest describes it, or none: such a run is not refused. */
  lemma GoodSetStaged(c: Checks, files: Files, existing: bool, contents: Files)
    requires contents.Keys == {"buffered-basic.json", "buffered-tools.json", "streamed-basic.json", "streamed-tools.json"}
    requires forall m :: c.load(c.dump(m)) == Some(m)
    ensures contents.Keys == (set name | name in FIXTURES)
    ensures Staged(c, contents).Some? <==> forall file :: file in contents ==> c.fixture(file, contents[file]).Some?
    ensures Refused(c, files, existing, contents) <==>
            (existing && !Described(c, files)) || exists file :: file in contents && c.fixture(file, contents[file]).None?
  {
    FixturesAre();
    assert (set name | name in FIXTURES) ==
           {"buffered-basic.json", "buffered-tools.json", "streamed-basic.json", "streamed-tools.json"};
    AcceptedIff(c, files);
    StagedWhen(c, contents);
  }

  lemma StagedWhen(c: Checks, contents: Files)
    requires contents.Keys == (set name | name in FIXTURES) && forall m :: c.load(c.dump(m)) == Some(m)
    ensures Staged(c, contents).Some? <==> forall file :: file in contents ==> c.fixture(file, contents[file]).Some?
  {
    assert forall i :: 0 <= i < |FIXTURES| ==> FIXTURES[i] in contents.Keys;
    var manifest := ManifestFor(c, contents);
    if manifest.Some? {
      var staged := contents[MANIFEST := c.dump(manifest.value)];
      assert MANIFEST !in contents.Keys;
      assert staged.Keys == contents.Keys + {MANIFEST};
      SameManifest(c, contents, staged);
      forall file | file in contents ensures c.fixture(file, contents[file]).Some? {
        var i :| 0 <= i < |FIXTURES| && FIXTURES[i] == file;
      }
    } else {
      var i :| 0 <= i < |FIXTURES| && c.fixture(FIXTURES[i], contents[FIXTURES[i]]).None?;
      assert FIXTURES[i] in contents;
    }
  }

  lemma SameManifest(c: Checks, a: Files, b: Files)
    requires forall i :: 0 <= i < |FIXTURES| ==> FIXTURES[i] in a && FIXTURES[i] in b && a[FIXTURES[i]] == b[FIXTURES[i]]
    ensures ManifestFor(c, a) == ManifestFor(c, b)
  {
    if ManifestFor(c, a).Some? {
      assert ManifestFor(c, a).value.fixtures == ManifestFor(c, b).value.fixtures;
      var x := seq(|FIXTURES|, i requires 0 <= i < |FIXTURES| => c.fixture(FIXTURES[i], a[FIXTURES[i]]).value);
      var y := seq(|FIXTURES|, i requires 0 <= i < |FIXTURES| => c.fixture(FIXTURES[i], b[FIXTURES[i]]).value);
      assert x == y;
    }
  }

  /** Replace one file; if a call fails, at most its temporary file is left. */
  method ReplaceOne(d: Directory, before: Files, after: Files, i: nat) returns (ok: bool)
    requires Complete(after) && OnlyExpected(before) && i < |ORDER|
    requires d.Valid() && d.files == Partly(before, after, i)
    modifies d
    ensures d.Valid() && old(d.history) <= d.history && AllReached(d.history, |old(d.history)|, before, after)
    ensures ok ==> d.files == Partly(before, after, i + 1) && d.failed == old(d.failed)
    ensures !ok ==> d.failed && Stage(d.files, before, after, i)
  {
    OrderIs();
    PartlyExpected(before, after, i);
    TemporaryUnexpected(ORDER[i]);
    ok := d.Publish(ORDER[i], after[ORDER[i]]);
    forall k | |old(d.history)| <= k < |d.history| ensures Reached(d.history[k], before, after) {
      assert Stage(d.history[k], before, after, i) || Stage(d.history[k], before, after, i + 1);
    }
  }

  /** The fixtures and then the manifest. */
  method ReplaceAll(d: Directory, before: Files, after: Files) returns (ok: bool)
    requires Complete(after) && OnlyExpected(before) && d.Valid() && d.files == before
    modifies d
    ensures d.Valid() && old(d.history) <= d.history && AllReached(d.history, |old(d.history)|, before, after)
    ensures ok ==> d.files == after && d.failed == old(d.failed)
    ensures !ok ==> d.failed
  {
    for i := 0 to |ORDER|
      invariant d.Valid() && d.files == Partly(before, after, i) && d.failed == old(d.failed)
      invariant old(d.history) <= d.history && AllReached(d.history, |old(d.history)|, before, after)
    {
      ok := ReplaceOne(d, before, after, i);
      if !ok { return; }
    }
    PartlyDone(before, after);
    ok := true;
  }

  /** `write_output`, from the sanitized contents on; `existing` says whether the destination was
      there before. A refusal touches nothing. Otherwise the files are replaced one by one, whatever
      stops it; it fails only if a system call does, and then it may have stopped anywhere. */
  method WriteOutput(c: Checks, d: Directory, existing: bool, contents: Files) returns (r: Result<(), string>)
    requires InjectiveDigest(c) && d.Valid()
    requires contents.Keys == (set name | name in FIXTURES)
    requires !existing ==> d.files == map[]
    modifies d
    ensures d.Valid() && old(d.history) <= d.history
    ensures Refused(c, old(d.files), existing, contents) ==> r.Err? && d.files == old(d.files) && d.history == old(d.history)
    ensures !Refused(c, old(d.files), existing, contents) ==>
              var after := Staged(c, contents).value;
              && AllReached(d.history, |old(d.history)|, old(d.files), after)
              && (forall k :: |old(d.history)| <= k < |d.history| ==> Whole(c, d.history[k], old(d.files), after))
              && (r.Ok? ==> d.files == after && Accepted(c, d.files, false))
              && (r.Err? ==> d.failed)
  {
    if existing && !Accepted(c, d.files, true) {
      return Err("fixture-write-failed");
    }
    var staged := Staged(c, contents);
    if staged.None? {
      return Err("fixture-write-failed");
    }
    var ok := d.Works();  // the staging copy, and making the directory
    if !ok {
      return Err("fixture-write-failed");
    }
    ghost var before := d.files;
    BeforeExpected(c, before);
    ok := ReplaceAll(d, d.files, staged.value);
    forall k | |old(d.history)| <= k < |d.history| ensures Whole(c, d.history[k], before, staged.value) {
      ReachedWhole(c, d.history[k], before, staged.value);
    }
    if ok {
      ok := d.Works();  // the directory's own fsync
    }
    r := if ok then Ok(()) else Err("fixture-write-failed");
  }

  /** Wherever it stopped, validation accepts the directory only if nothing had been replaced yet, as
      it accepted the old set, or if everything had. */
  lemma StoppedAcceptedIff(c: Checks, state: Files, before: Files, after: Files, lax: bool)
    requires InjectiveDigest(c) && (before == map[] || Accepted(c, before, true)) && Accepted(c, after, false)
    requires Reached(state, before, after)
    ensures Accepted(c, state, lax) <==> state == after || (state == before && Accepted(c, before, lax))
  {
    StrictIsLax(c, after);
    ReachedWhole(c, state, before, after);
  }

  /** Stopped on the way, it has left a directory that every later run refuses, whatever it was
      going to publish: the old set cannot be published over, nor the new one completed. The same
      holds of a destination it has only created. */
  lemma StoppedStaysRefused(c: Checks, state: Files, before: Files, after: Files, contents: Files)
    requires InjectiveDigest(c) && (before == map[] || Accepted(c, before, true))
    requires Complete(after) && Reached(state, before, after) && state != after && (state == before ==> before == map[])
    requires contents.Keys == (set name | name in FIXTURES)
    ensures Refused(c, state, true, contents)
  {
    ReachedWhole(c, state, before, after);
    var nothing: Files := map[];
    assert MANIFEST !in nothing.Keys;
  }
}
