/** What identities, completions and built manifests look like, field by field. */
module EvidenceFormat {
  import opened Order
  import opened Wrappers
  import opened Evidence

  // ---- Identities -------------------------------------------------------------------------------------------

  /** The code points str.strip removes. */
  const WHITESPACE: set<int> := {
    9, 10, 11, 12, 13, 28, 29, 30, 31, 32, 133, 160, 5760, 8192, 8193, 8194, 8195, 8196, 8197, 8198, 8199, 8200, 8201,
    8202, 8232, 8233, 8239, 8287, 12288}

  ghost predicate IsCommand(x: Json) { x.Str? && exists i :: 0 <= i < |x.s| && x.s[i] as int !in WHITESPACE }

  ghost predicate IsRuntime(x: Json) {
    exists i, p :: i != "" && p != "" && x == Object(map["implementation" := Str(i), "python" := Str(p)])
  }

  /** Strings in strictly ascending code-point order. */
  ghost predicate IsTools(x: Json) {
    && x.List? && (forall i :: 0 <= i < |x.items| ==> x.items[i].Str?)
    && forall i, j :: 0 <= i < j < |x.items| ==> CodePointsBefore(x.items[i].s, x.items[j].s)
  }

  ghost predicate IsEntry(x: Json, path: string, digest: string) {
    && x == Object(map["path" := Str(path), "sha256" := Str(digest)]) && path != ""
    && |digest| == 64 && forall c :: c in digest ==> c in "0123456789abcdef"
  }

  /** At least one entry, in strictly ascending path order. */
  ghost predicate IsInputs(x: Json, ds: seq<InputDigest>) {
    && x.List? && x.items != [] && |ds| == |x.items|
    && (forall i :: 0 <= i < |ds| ==> IsEntry(x.items[i], ds[i].path, ds[i].sha256))
    && forall i, j :: 0 <= i < j < |ds| ==> CodePointsBefore(ds[i].path, ds[j].path)
  }

  ghost predicate IsIdentity(hash: Hash, m: map<string, Json>) {
    && m.Keys == {"schema", "command", "runtime", "tools", "inputs", "evidence_key"}
    && m["schema"] == Int(1) && IsCommand(m["command"]) && IsRuntime(m["runtime"]) && IsTools(m["tools"])
    && (exists ds :: IsInputs(m["inputs"], ds))
    && m["evidence_key"] == Str(hash(map[
      "schema" := Int(1), "command" := m["command"], "runtime" := m["runtime"], "tools" := m["tools"],
      "inputs" := m["inputs"]]))
  }

  lemma BlankMeans(s: string)
    ensures Blank(s) <==> forall i :: 0 <= i < |s| ==> s[i] as int in WHITESPACE
  {
    forall c: char ensures IsSpace(c) <==> c as int in WHITESPACE {}
    hide IsSpace;
    forall i | 0 <= i < |s| ensures s[i] in s {}
  }

  lemma RuntimeMeans(x: Json)
    ensures ValidatedRuntime(x).Some? <==> IsRuntime(x)
  {
    if ValidatedRuntime(x).Some? {
      var i, p := x.fields["implementation"].s, x.fields["python"].s;
      assert x.fields == map["implementation" := Str(i), "python" := Str(p)];
    }
  }

  lemma ToolsMean(x: Json)
    ensures ValidatedTools(x).Some? <==> IsTools(x)
  {
    hide LexLess;
    LexTotal();
    if x.List? && forall y :: y in x.items ==> y.Str? {
      var ts := Texts(x.items);
      SortUniqueSorts(LexLess, ts);
      forall i, j | 0 <= i < j < |ts| ensures LexLess(ts[i], ts[j]) <==> CodePointsBefore(x.items[i].s, x.items[j].s) {
        LexMeans(ts[i], ts[j]);
      }
      if Sorted(LexLess, ts) { SortedDetermined(LexLess, ts, SortUnique(LexLess, ts)); }
    }
    if x.List? { forall i | 0 <= i < |x.items| ensures x.items[i] in x.items {} }
  }

  lemma InputsMean(x: Json)
    ensures InputsOf(x).Some? <==> exists ds :: IsInputs(x, ds)
  {
    hide LexLess, InputsFrom, Sha256Hex;
    if x.List? {
      InputsExactly(x.items, "");
      if ds :| IsInputs(x, ds) {
        CanonicalMeans(x, ds);
        assert x.items == Entries(ds);
      }
      if x.items != [] && InputsFrom(x.items, "").Some? {
        var ds :| Canonical(ds, "") && x.items == Entries(ds);
        CanonicalMeans(x, ds);
      }
    }
  }

  lemma CanonicalMeans(x: Json, ds: seq<InputDigest>)
    ensures IsInputs(x, ds) <==> x.List? && x.items != [] && Canonical(ds, "") && x.items == Entries(ds)
  {
    forall i | 0 <= i < |ds| ensures Sha256Hex(ds[i].sha256) <==>
      |ds[i].sha256| == 64 && forall c :: c in ds[i].sha256 ==> c in "0123456789abcdef"
    {
      HexMeans(ds[i].sha256);
    }
    forall i, j | 0 <= i < j < |ds|
      ensures LexLess(ds[i].path, ds[j].path) <==> CodePointsBefore(ds[i].path, ds[j].path)
    {
      LexMeans(ds[i].path, ds[j].path);
    }
    forall i | 0 <= i < |ds| ensures LexLess("", ds[i].path) <==> ds[i].path != "" {}
    hide LexLess, CodePointsBefore, Sha256Hex;
  }

  lemma HexMeans(s: string)
    ensures Sha256Hex(s) <==> |s| == 64 && forall c :: c in s ==> c in "0123456789abcdef"
  {
    forall c: char ensures HexDigit(c) <==> c in "0123456789abcdef" {
      assert "0123456789abcdef" == ['0', '1', '2', '3', '4', '5', '6', '7', '8', '9', 'a', 'b', 'c', 'd', 'e', 'f'];
    }
    hide HexDigit;
  }

  /** Validation accepts exactly the manifests of this form. */
  lemma IdentityExactly(hash: Hash, m: map<string, Json>)
    ensures Validated(hash, m).Some? <==> IsIdentity(hash, m)
    ensures Validated(hash, m).Some? ==> Validated(hash, m).value == m
  {
    hide IsCommand, IsRuntime, IsTools, IsInputs, ValidatedRuntime, ValidatedTools, InputsOf, Blank;
    if Validated(hash, m).Some? { PartsUnchanged(hash, m); }
    if m.Keys == IDENTITY_FIELDS {
      CommandMeans(m["command"]);
      RuntimeMeans(m["runtime"]);
      ToolsMean(m["tools"]);
      InputsMean(m["inputs"]);
      if Parts(m) { PartsStay(m); }
    }
  }

  ghost predicate Parts(m: map<string, Json>)
    requires m.Keys == IDENTITY_FIELDS
  {
    ValidatedRuntime(m["runtime"]).Some? && ValidatedTools(m["tools"]).Some? && InputsOf(m["inputs"]).Some?
  }

  lemma PartsStay(m: map<string, Json>)
    requires m.Keys == IDENTITY_FIELDS && Parts(m)
    ensures ValidatedRuntime(m["runtime"]).value == m["runtime"] && ValidatedTools(m["tools"]).value == m["tools"]
    ensures List(InputsOf(m["inputs"]).value) == m["inputs"]
  {
    hide ValidatedRuntime, ValidatedTools, InputsFrom;
    RuntimeUnchanged(m["runtime"]);
    ToolsUnchanged(m["tools"]);
    InputsUnchanged(m["inputs"].items, "");
  }

  lemma CommandMeans(x: Json)
    ensures IsCommand(x) <==> x.Str? && !Blank(x.s)
  {
    if x.Str? { BlankMeans(x.s); }
  }

  // ---- Completions --------------------------------------------------------------------------------------------

  /** raw is a finite, non-negative number of seconds, and d its value. */
  ghost predicate Seconds(raw: Json, d: real) {
    d >= 0.0 && (raw == Float(Finite(d)) || (raw.Int? && raw.i as real == d))
  }

  /** The completion of an identity by a command that exited with code after d seconds, with the duration as written. */
  ghost predicate IsCompletion(hash: Hash, identity: map<string, Json>, code: int, d: real, written: Json,
      m: map<string, Json>)
    requires "evidence_key" in identity
  {
    var result := Str(if code == 0 then "success" else "failure");
    && m.Keys == {"schema", "evidence_key", "result", "exit_code", "duration_seconds", "result_key", "identity"}
    && m["schema"] == Int(1) && m["evidence_key"] == identity["evidence_key"] && m["result"] == result
    && m["exit_code"] == Int(code) && m["duration_seconds"] == written && m["identity"] == Object(identity)
    && m["result_key"] == Str(hash(map[
      "schema" := Int(1), "evidence_key" := identity["evidence_key"], "result" := result, "exit_code" := Int(code),
      "duration_seconds" := Float(Finite(d))]))
  }

  lemma SecondsMean(raw: Json, d: real)
    ensures ValidatedDuration(raw) == Some(d) <==> Seconds(raw, d)
  {
  }

  /** A completion is refused unless the identity, the exit code and the duration are as they should, and otherwise
      is this one manifest. */
  lemma CompletedExactly(hash: Hash, identity: map<string, Json>, code: Json, duration: Json, m: map<string, Json>)
    ensures Complete(hash, identity, code, duration) == Some(m) <==>
      && IsIdentity(hash, identity) && code.Int? && code.i >= 0
      && exists d :: Seconds(duration, d) && IsCompletion(hash, identity, code.i, d, Float(Finite(d)), m)
  {
    hide Validated;
    IdentityExactly(hash, identity);
    hide IsIdentity;
    forall d ensures ValidatedDuration(duration) == Some(d) <==> Seconds(duration, d) { SecondsMean(duration, d); }
    hide ValidatedDuration, Seconds;
    if Validated(hash, identity).Some? && code.Int? && code.i >= 0 && ValidatedDuration(duration).Some? {
      PartsUnchanged(hash, identity);
      var d := ValidatedDuration(duration).value;
      SealedExactly(hash, identity, code.i, d, m);
    }
  }

  lemma SealedExactly(hash: Hash, identity: map<string, Json>, code: int, d: real, m: map<string, Json>)
    requires "evidence_key" in identity
    ensures m == Sealed(hash, Attestation(identity["evidence_key"], code, d), identity) <==>
      IsCompletion(hash, identity, code, d, Float(Finite(d)), m)
  {
    var done := Sealed(hash, Attestation(identity["evidence_key"], code, d), identity);
    assert IsCompletion(hash, identity, code, d, Float(Finite(d)), done);
    if IsCompletion(hash, identity, code, d, Float(Finite(d)), m) {
      assert m.Keys == done.Keys;
      forall k | k in m ensures m[k] == done[k] {}
    }
  }

  /** Verification accepts exactly the completions of the expected identity by a command that succeeded. */
  lemma VerifiedExactly(hash: Hash, m: map<string, Json>, expected: map<string, Json>)
    ensures Verify(hash, m, expected).Some? <==>
      && IsIdentity(hash, expected) && "duration_seconds" in m
      && exists d :: Seconds(m["duration_seconds"], d) && IsCompletion(hash, expected, 0, d, m["duration_seconds"], m)
    ensures Verify(hash, m, expected).Some? ==> Verify(hash, m, expected).value == m
  {
    hide Validated;
    IdentityExactly(hash, expected);
    if Validated(hash, expected).Some? { PartsUnchanged(hash, expected); }
    hide IsIdentity;
    if "duration_seconds" in m {
      forall d ensures ValidatedDuration(m["duration_seconds"]) == Some(d) <==> Seconds(m["duration_seconds"], d) {
        SecondsMean(m["duration_seconds"], d);
      }
      hide ValidatedDuration, Seconds;
      if Verify(hash, m, expected).Some? {
        PartsUnchanged(hash, m["identity"].fields);
        var d := ValidatedDuration(m["duration_seconds"]).value;
        assert IsCompletion(hash, expected, 0, d, m["duration_seconds"], m);
      }
    }
  }

  // ---- Built manifests ------------------------------------------------------------------------------------------

  /** No input is missing, no path was read with two digests, and something was found. */
  ghost predicate Readable(walks: seq<Walk>) {
    && (forall i :: 0 <= i < |walks| ==> walks[i].Some?)
    && (forall d, e :: Found(walks, d) && Found(walks, e) && d.path == e.path ==> d.sha256 == e.sha256)
    && exists d :: Found(walks, d)
  }

  ghost predicate Found(walks: seq<Walk>, d: InputDigest) {
    exists i :: 0 <= i < |walks| && walks[i].Some? && d in walks[i].value
  }

  /** ds lists exactly what was found, each path once, in ascending order. */
  ghost predicate ListsFound(walks: seq<Walk>, ds: seq<InputDigest>) {
    && (forall d :: d in ds <==> Found(walks, d))
    && forall i, j :: 0 <= i < j < |ds| ==> CodePointsBefore(ds[i].path, ds[j].path)
  }

  /** ts lists exactly the tools named, each once, in ascending order. */
  ghost predicate ListsTools(tools: seq<string>, ts: seq<string>) {
    && (forall t :: t in ts <==> t in tools)
    && forall i, j :: 0 <= i < j < |ts| ==> CodePointsBefore(ts[i], ts[j])
  }

  /** m describes a build of these inputs, tools and command, under the key of the rest. */
  ghost predicate Describes(hash: Hash, command: string, implementation: string, python: string, ts: seq<string>,
      ds: seq<InputDigest>, m: map<string, Json>) {
    && m.Keys == {"schema", "command", "runtime", "tools", "inputs", "evidence_key"} && m["schema"] == Int(1)
    && m["command"] == Str(command)
    && m["runtime"] == Object(map["implementation" := Str(implementation), "python" := Str(python)])
    && m["tools"].List? && |m["tools"].items| == |ts|
    && (forall i :: 0 <= i < |ts| ==> m["tools"].items[i] == Str(ts[i]))
    && m["inputs"].List? && |m["inputs"].items| == |ds|
    && (forall i :: 0 <= i < |ds| ==>
      m["inputs"].items[i] == Object(map["path" := Str(ds[i].path), "sha256" := Str(ds[i].sha256)]))
    && m["evidence_key"] == Str(hash(map[
      "schema" := Int(1), "command" := m["command"], "runtime" := m["runtime"], "tools" := m["tools"],
      "inputs" := m["inputs"]]))
  }

  /** Building fails exactly for a blank command or unreadable inputs, and otherwise describes what was declared. */
  lemma BuiltExactly(hash: Hash, walks: seq<Walk>, command: string, implementation: string, python: string,
      tools: seq<string>)
    ensures var r := Built(hash, walks, command, Runtime(implementation, python), tools);
      && (r.Some? <==> IsCommand(Str(command)) && Readable(walks))
      && (r.Some? ==> exists ts, ds ::
        (ListsTools(tools, ts) && ListsFound(walks, ds)
        && Describes(hash, command, implementation, python, ts, ds, r.value)))
  {
    hide Blank, LexLess, IsCommand, CodePointsBefore, Readable, Digestible, ListsTools, ListsFound, Describes;
    CommandMeans(Str(command));
    FoundIsFlat(walks);
    if Digestible(walks) && !Blank(command) {
      ToolsListed(tools);
      DigestsListed(walks);
      IdentityDescribes(hash, command, implementation, python, SortUnique(LexLess, tools),
        SortUnique(DigestLess, Flat(walks)));
    }
  }

  lemma IdentityDescribes(hash: Hash, command: string, implementation: string, python: string, ts: seq<string>,
      ds: seq<InputDigest>)
    ensures Describes(hash, command, implementation, python, ts, ds,
      Keyed(hash, Identity(Str(command), Runtime(implementation, python), List(Strs(ts)), List(Entries(ds)))))
  {
  }

  lemma ToolsListed(tools: seq<string>)
    ensures ListsTools(tools, SortUnique(LexLess, tools))
  {
    hide LexLess, CodePointsBefore;
    var ts := SortUnique(LexLess, tools);
    LexTotal();
    SortUniqueSorts(LexLess, tools);
    forall i, j | 0 <= i < j < |ts| ensures CodePointsBefore(ts[i], ts[j]) { LexMeans(ts[i], ts[j]); }
    forall t ensures t in ts <==> t in tools {
      assert t in ts <==> t in Elements(ts);
      assert t in tools <==> t in Elements(tools);
    }
  }

  lemma DigestsListed(walks: seq<Walk>)
    requires Digestible(walks)
    ensures ListsFound(walks, SortUnique(DigestLess, Flat(walks)))
  {
    hide LexLess, CodePointsBefore, DigestLess, Found;
    var all, ds := Flat(walks), SortUnique(DigestLess, Flat(walks));
    DigestTotal();
    SortUniqueSorts(DigestLess, all);
    FoundIsFlat(walks);
    forall d ensures d in ds <==> d in all {
      assert d in ds <==> d in Elements(ds);
      assert d in all <==> d in Elements(all);
    }
    forall i, j | 0 <= i < j < |ds| ensures CodePointsBefore(ds[i].path, ds[j].path) {
      assert DigestLess(ds[i], ds[j]) && ds[i] in all && ds[j] in all;
      OtherPath(ds[i], ds[j]);
      LexMeans(ds[i].path, ds[j].path);
    }
  }

  lemma OtherPath(a: InputDigest, b: InputDigest)
    requires DigestLess(a, b)
    ensures a != b && (LexLess(a.path, b.path) || a.path == b.path)
  {
    DigestIrreflexive(a, b);
  }

  lemma FoundIsFlat(walks: seq<Walk>)
    ensures forall d :: Found(walks, d) <==> d in Flat(walks)
    ensures Readable(walks) <==> Digestible(walks)
  {
    hide Flat;
    forall d ensures Found(walks, d) <==> d in Flat(walks) {
      if d in Flat(walks) { var w := FlatMeans(walks, d); }
      if i :| 0 <= i < |walks| && walks[i].Some? && d in walks[i].value { MeansFlat(walks, walks[i], d); }
    }
    hide Found;
    if Flat(walks) != [] { assert Found(walks, Flat(walks)[0]); }
  }
}
