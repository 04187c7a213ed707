/** Content-addressed build evidence: canonical identities, completion, and verification. */
module Evidence {
  import opened Order
  import opened Wrappers

  /** A float is a real or one of the three values JSON readers let through beside the reals. */
  datatype Double = Finite(x: real) | NaN | PosInf | NegInf

  datatype Json =
    | Null
    | Bool(b: bool)
    | Int(i: int)
    | Float(f: Double)
    | Str(s: string)
    | List(items: seq<Json>)
    | Object(fields: map<string, Json>)

  /** The digest of the canonical rendering of an object. */
  type Hash = map<string, Json> -> string

  const IDENTITY_FIELDS: set<string> := {"schema", "command", "runtime", "tools", "inputs", "evidence_key"}
  const RESULT_FIELDS: set<string> := {"schema", "evidence_key", "result", "exit_code", "duration_seconds",
    "result_key", "identity"}

  // ---- Validating an identity ----------------------------------------------------------------------------

  /** Python's whitespace. */
  predicate IsSpace(c: char) {
    var u := c as int;
    || 0x09 <= u <= 0x0D || 0x1C <= u <= 0x20 || u == 0x85 || u == 0xA0 || u == 0x1680 || 0x2000 <= u <= 0x200A
    || u == 0x2028 || u == 0x2029 || u == 0x202F || u == 0x205F || u == 0x3000
  }

  /** Nothing is left after stripping. */
  predicate Blank(s: string) { forall c :: c in s ==> IsSpace(c) }

  predicate HexDigit(c: char) { '0' <= c <= '9' || 'a' <= c <= 'f' }

  predicate Sha256Hex(s: string) { |s| == 64 && forall c :: c in s ==> HexDigit(c) }

  function ValidatedRuntime(raw: Json): Option<Json> {
    if !raw.Object? || raw.fields.Keys != {"implementation", "python"} then None
    else if !(forall k :: k in raw.fields ==> raw.fields[k].Str? && raw.fields[k].s != "") then None
    else Some(Object(map["implementation" := raw.fields["implementation"], "python" := raw.fields["python"]]))
  }

  function TextOf(x: Json): string { if x.Str? then x.s else "" }

  function Texts(items: seq<Json>): (r: seq<string>)
    requires forall x :: x in items ==> x.Str?
    ensures |r| == |items| && forall i :: 0 <= i < |r| ==> items[i] == Str(r[i])
  {
    assert forall i :: 0 <= i < |items| ==> items[i] in items && items[i] == Str(TextOf(items[i]));
    seq(|items|, i requires 0 <= i < |items| => TextOf(items[i]))
  }

  function Strs(ss: seq<string>): (r: seq<Json>)
    ensures |r| == |ss| && forall i :: 0 <= i < |r| ==> r[i] == Str(ss[i])
  {
    seq(|ss|, i requires 0 <= i < |ss| => Str(ss[i]))
  }

  function ValidatedTools(raw: Json): Option<Json> {
    if !raw.List? || !(forall x :: x in raw.items ==> x.Str?) then None
    else if Texts(raw.items) != SortUnique(LexLess, Texts(raw.items)) then None
    else Some(List(raw.items))
  }

  function Entry(path: string, digest: string): Json { Object(map["path" := Str(path), "sha256" := Str(digest)]) }

  /** One input entry, strictly after the previous path. */
  function ValidatedDigest(item: Json, previous: string): Option<Json> {
    if !item.Object? || item.fields.Keys != {"path", "sha256"} then None
    else
      var path, digest := item.fields["path"], item.fields["sha256"];
      if !path.Str? || path.s == "" || !LexLess(previous, path.s) then None
      else if !digest.Str? || !Sha256Hex(digest.s) then None
      else Some(Entry(path.s, digest.s))
  }

  function PathOf(entry: Json): string {
    if entry.Object? && "path" in entry.fields then TextOf(entry.fields["path"]) else ""
  }

  function Prepend(done: seq<Json>, rest: Option<seq<Json>>): Option<seq<Json>> {
    match rest case None => None case Some(r) => Some(done + r)
  }

  function InputsFrom(items: seq<Json>, previous: string): Option<seq<Json>> {
    if items == [] then Some([])
    else match ValidatedDigest(items[0], previous)
      case None => None
      case Some(entry) => Prepend([entry], InputsFrom(items[1..], PathOf(entry)))
  }

  function InputsOf(raw: Json): Option<seq<Json>> {
    if !raw.List? || raw.items == [] then None else InputsFrom(raw.items, "")
  }

  /** _validated_inputs: the previous path threaded through a loop. */
  method ValidatedInputs(raw: Json) returns (r: Option<seq<Json>>)
    ensures r == InputsOf(raw)
  {
    if !raw.List? || raw.items == [] { return None; }
    var normalized: seq<Json>, previous := [], "";
    PrependNothing(InputsFrom(raw.items, ""));
    for k := 0 to |raw.items|
      invariant InputsFrom(raw.items, "") == Prepend(normalized, InputsFrom(raw.items[k..], previous))
    {
      assert raw.items[k..][1..] == raw.items[k + 1..];
      var entry := ValidatedDigest(raw.items[k], previous);
      if entry.None? { return None; }
      PrependMore(normalized, entry.value, InputsFrom(raw.items[k + 1..], PathOf(entry.value)));
      normalized, previous := normalized + [entry.value], PathOf(entry.value);
    }
    assert normalized + [] == normalized;
    r := Some(normalized);
  }

  lemma PrependNothing(rest: Option<seq<Json>>)
    ensures Prepend([], rest) == rest
  {
    if rest.Some? { assert [] + rest.value == rest.value; }
  }

  lemma PrependMore(done: seq<Json>, x: Json, rest: Option<seq<Json>>)
    ensures Prepend(done + [x], rest) == Prepend(done, Prepend([x], rest))
  {
    if rest.Some? { assert done + [x] + rest.value == done + ([x] + rest.value); }
  }

  /** The hashed part of an identity. */
  function Identity(command: Json, runtime: Json, tools: Json, inputs: Json): map<string, Json> {
    map["schema" := Int(1), "command" := command, "runtime" := runtime, "tools" := tools, "inputs" := inputs]
  }

  function Keyed(hash: Hash, identity: map<string, Json>): map<string, Json> {
    identity["evidence_key" := Str(hash(identity))]
  }

  /** _validated_identity: rebuilt from its validated parts. */
  function Validated(hash: Hash, m: map<string, Json>): Option<map<string, Json>> {
    if m.Keys != IDENTITY_FIELDS || m["schema"] != Int(1) then None
    else if !m["command"].Str? || Blank(m["command"].s) then None
    else
      var runtime, tools, inputs := ValidatedRuntime(m["runtime"]), ValidatedTools(m["tools"]), InputsOf(m["inputs"]);
      if runtime.None? || tools.None? || inputs.None? then None
      else
        var identity := Identity(m["command"], runtime.value, tools.value, List(inputs.value));
        if m["evidence_key"] != Str(hash(identity)) then None else Some(identity["evidence_key" := m["evidence_key"]])
  }

  // ---- What validation means -----------------------------------------------------------------------------

  lemma RuntimeUnchanged(raw: Json)
    requires ValidatedRuntime(raw).Some?
    ensures ValidatedRuntime(raw).value == raw
  {
    assert ValidatedRuntime(raw).value.fields == raw.fields;
  }

  lemma DigestUnchanged(item: Json, previous: string)
    requires ValidatedDigest(item, previous).Some?
    ensures ValidatedDigest(item, previous).value == item
  {
    assert ValidatedDigest(item, previous).value.fields == item.fields;
  }

  lemma {:induction false} InputsUnchanged(items: seq<Json>, previous: string)
    requires InputsFrom(items, previous).Some?
    ensures InputsFrom(items, previous).value == items
  {
    hide ValidatedDigest, PathOf;
    if items != [] {
      DigestUnchanged(items[0], previous);
      InputsUnchanged(items[1..], PathOf(items[0]));
      assert items == [items[0]] + items[1..];
    }
  }

  lemma PartsUnchanged(hash: Hash, m: map<string, Json>)
    requires Validated(hash, m).Some?
    ensures m.Keys == IDENTITY_FIELDS
    ensures m == Keyed(hash, Identity(m["command"], m["runtime"], m["tools"], m["inputs"]))
    ensures Validated(hash, m).value == m
  {
    hide ValidatedRuntime, ValidatedTools, InputsFrom, Blank;
    RuntimeUnchanged(m["runtime"]);
    ToolsUnchanged(m["tools"]);
    InputsUnchanged(m["inputs"].items, "");
  }

  lemma ToolsUnchanged(raw: Json)
    requires ValidatedTools(raw).Some?
    ensures ValidatedTools(raw).value == raw
  {
  }

  /** Validation only ever accepts what it would rebuild: nothing is normalised away. */
  lemma ValidationIsFixed(hash: Hash, m: map<string, Json>)
    requires Validated(hash, m).Some?
    ensures Validated(hash, m) == Some(m)
  {
    PartsUnchanged(hash, m);
  }

  /** What the key of an identity is the digest of. */
  function Hashed(m: map<string, Json>): map<string, Json>
    requires m.Keys == IDENTITY_FIELDS
  {
    Identity(m["command"], m["runtime"], m["tools"], m["inputs"])
  }

  /** Valid identities share a key only when they are the same identity or the digest collides on them. */
  lemma KeyIdentifies(hash: Hash, a: map<string, Json>, b: map<string, Json>)
    requires Validated(hash, a).Some? && Validated(hash, b).Some?
    ensures a.Keys == b.Keys == IDENTITY_FIELDS
    ensures a["evidence_key"] == b["evidence_key"]
      <==> a == b || (hash(Hashed(a)) == hash(Hashed(b)) && Hashed(a) != Hashed(b))
  {
    hide Validated;
    PartsUnchanged(hash, a);
    PartsUnchanged(hash, b);
    assert Keyed(hash, Hashed(a))["evidence_key"] == Str(hash(Hashed(a)))
      && Keyed(hash, Hashed(b))["evidence_key"] == Str(hash(Hashed(b)));
  }

  // ---- Completing and verifying ----------------------------------------------------------------------------

  function ValidatedDuration(raw: Json): Option<real> {
    match raw
    case Int(i) => if i < 0 then None else Some(i as real)
    case Float(Finite(x)) => if x < 0.0 then None else Some(x)
    case _ => None
  }

  function Outcome(code: int): Json { Str(if code == 0 then "success" else "failure") }

  function Attestation(key: Json, code: int, duration: real): map<string, Json> {
    map["schema" := Int(1), "evidence_key" := key, "result" := Outcome(code), "exit_code" := Int(code),
        "duration_seconds" := Float(Finite(duration))]
  }

  function Sealed(hash: Hash, attestation: map<string, Json>, identity: map<string, Json>): map<string, Json> {
    attestation["result_key" := Str(hash(attestation))]["identity" := Object(identity)]
  }

  /** complete_manifest. */
  function Complete(hash: Hash, identity: map<string, Json>, exitCode: Json,
      duration: Json): Option<map<string, Json>> {
    var valid, seconds := Validated(hash, identity), ValidatedDuration(duration);
    if valid.None? || !exitCode.Int? || exitCode.i < 0 || seconds.None? then None
    else
      PartsUnchanged(hash, identity);
      Some(Sealed(hash, Attestation(valid.value["evidence_key"], exitCode.i, seconds.value), valid.value))
  }

  /** verify_completed_manifest. */
  function Verify(hash: Hash, m: map<string, Json>, expected: map<string, Json>): Option<map<string, Json>> {
    var valid := Validated(hash, expected);
    if valid.None? || m.Keys != RESULT_FIELDS || m["schema"] != Int(1) || !m["identity"].Object? then None
    else if Validated(hash, m["identity"].fields) != valid then None
    else
      PartsUnchanged(hash, expected);
      if m["evidence_key"] != valid.value["evidence_key"] then None
      else
        var code, seconds := m["exit_code"], ValidatedDuration(m["duration_seconds"]);
        if !code.Int? || code.i < 0 || seconds.None? || m["result"] != Outcome(code.i) then None
        else if m["result_key"] != Str(hash(Attestation(valid.value["evidence_key"], code.i, seconds.value))) then None
        else if code.i != 0 then None else Some(m)
  }

  /** The manifest with its duration read as a float, the only freedom verification leaves. */
  function AsFloat(m: map<string, Json>): map<string, Json> {
    if "duration_seconds" in m && ValidatedDuration(m["duration_seconds"]).Some?
    then m["duration_seconds" := Float(Finite(ValidatedDuration(m["duration_seconds"]).value))] else m
  }

  /** Verification accepts exactly the successful completions of the expected identity, and hands them back
      unchanged. */
  lemma VerifyExactly(hash: Hash, m: map<string, Json>, expected: map<string, Json>)
    ensures Verify(hash, m, expected).Some? <==>
      "duration_seconds" in m && Complete(hash, expected, Int(0), m["duration_seconds"]) == Some(AsFloat(m))
    ensures Verify(hash, m, expected).Some? ==> Verify(hash, m, expected) == Some(m)
  {
    if Verify(hash, m, expected).Some? {
      VerifiedIsCompletion(hash, m, expected);
    }
    if "duration_seconds" in m && Complete(hash, expected, Int(0), m["duration_seconds"]) == Some(AsFloat(m)) {
      CompletionVerifies(hash, m, expected);
    }
  }

  lemma VerifiedIsCompletion(hash: Hash, m: map<string, Json>, expected: map<string, Json>)
    requires Verify(hash, m, expected).Some?
    ensures Complete(hash, expected, Int(0), m["duration_seconds"]) == Some(AsFloat(m))
  {
    hide Validated;
    PartsUnchanged(hash, expected);
    PartsUnchanged(hash, m["identity"].fields);
    var done := Complete(hash, expected, Int(0), m["duration_seconds"]).value;
    assert done == AsFloat(m);
  }

  lemma CompletionVerifies(hash: Hash, m: map<string, Json>, expected: map<string, Json>)
    requires "duration_seconds" in m && Complete(hash, expected, Int(0), m["duration_seconds"]) == Some(AsFloat(m))
    ensures Verify(hash, m, expected) == Some(m)
  {
    hide Validated, Sealed;
    PartsUnchanged(hash, expected);
    var done, key, seconds := AsFloat(m), expected["evidence_key"], ValidatedDuration(m["duration_seconds"]).value;
    SealedFields(hash, key, seconds, expected);
    assert m.Keys == done.Keys;
    assert m["schema"] == done["schema"] && m["evidence_key"] == done["evidence_key"]
      && m["identity"] == done["identity"];
    assert m["result"] == done["result"] && m["exit_code"] == done["exit_code"]
      && m["result_key"] == done["result_key"];
  }

  lemma SealedFields(hash: Hash, key: Json, seconds: real, identity: map<string, Json>)
    ensures var a := Attestation(key, 0, seconds);
      var done := Sealed(hash, a, identity);
      && done.Keys == RESULT_FIELDS && done["schema"] == Int(1) && done["evidence_key"] == key
      && done["identity"] == Object(identity)
      && done["result"] == Outcome(0) && done["exit_code"] == Int(0) && done["result_key"] == Str(hash(a))
  {
  }

  /** Round trip: what a zero exit completes, the same identity verifies; what any other exit completes, nothing
      verifies. */
  lemma CompleteThenVerify(hash: Hash, identity: map<string, Json>, code: int, duration: Json, other: map<string, Json>)
    requires Complete(hash, identity, Int(code), duration).Some?
    ensures var done := Complete(hash, identity, Int(code), duration).value;
      && (code == 0 ==> Verify(hash, done, identity) == Some(done))
      && (code != 0 ==> Verify(hash, done, other).None?)
      && (other != identity ==> Verify(hash, done, other).None?)
  {
    hide Validated;
    var done := Complete(hash, identity, Int(code), duration).value;
    PartsUnchanged(hash, identity);
    assert AsFloat(done) == done;
    if code == 0 { CompletionVerifies(hash, done, identity); }
    if Verify(hash, done, other).Some? {
      PartsUnchanged(hash, other);
      PartsUnchanged(hash, done["identity"].fields);
    }
  }

  // ---- Building an identity --------------------------------------------------------------------------------

  datatype InputDigest = InputDigest(path: string, sha256: string)

  predicate DigestLess(a: InputDigest, b: InputDigest) {
    LexLess(a.path, b.path) || (a.path == b.path && LexLess(a.sha256, b.sha256))
  }

  lemma DigestTotal()
    ensures StrictTotal(DigestLess)
  {
    LexTotal();
    hide LexLess;
    forall a: InputDigest, b: InputDigest ensures a == b || DigestLess(a, b) || DigestLess(b, a) {
      assert a.path == b.path || LexLess(a.path, b.path) || LexLess(b.path, a.path);
      assert a.sha256 == b.sha256 || LexLess(a.sha256, b.sha256) || LexLess(b.sha256, a.sha256);
    }
    forall a: InputDigest, b: InputDigest, c: InputDigest | DigestLess(a, b) && DigestLess(b, c)
      ensures DigestLess(a, c)
    {
    }
  }

  /** What walking one declared input yields, or None when it is missing or escapes the root. */
  type Walk = Option<seq<InputDigest>>

  function Flat(walks: seq<Walk>): seq<InputDigest> {
    if walks == [] then []
    else Flat(walks[..|walks| - 1]) + (match walks[|walks| - 1] case None => [] case Some(ds) => ds)
  }

  /** No file was seen with two contents. */
  ghost predicate Agree(ds: seq<InputDigest>) {
    forall a, b :: a in ds && b in ds && a.path == b.path ==> a == b
  }

  ghost predicate Digestible(walks: seq<Walk>) {
    (forall w :: w in walks ==> w.Some?) && Agree(Flat(walks)) && Flat(walks) != []
  }

  ghost function DigestsOf(walks: seq<Walk>): Option<seq<InputDigest>> {
    if Digestible(walks) then Some(SortUnique(DigestLess, Flat(walks))) else None
  }

  /** The digests by path say exactly what was seen; keys lists the paths in insertion order. */
  ghost predicate Recorded(keys: seq<string>, byPath: map<string, string>, seen: seq<InputDigest>) {
    && (forall p :: p in keys <==> p in byPath)
    && (forall p :: p in byPath ==> InputDigest(p, byPath[p]) in seen)
    && forall d :: d in seen ==> d.path in byPath && byPath[d.path] == d.sha256
  }

  method DigestInputs(walks: seq<Walk>) returns (r: Option<seq<InputDigest>>)
    ensures r == DigestsOf(walks)
  {
    hide Recorded, Agree;
    var keys: seq<string>, byPath: map<string, string> := [], map[];
    NothingRecorded();
    for k := 0 to |walks|
      invariant forall w :: w in walks[..k] ==> w.Some?
      invariant Recorded(keys, byPath, Flat(walks[..k]))
    {
      assert walks[..k + 1][..k] == walks[..k];
      if walks[k].None? {
        assert walks[k] in walks;
        return None;
      }
      var ok: bool;
      ghost var before := Flat(walks[..k]);
      ok, keys, byPath := RecordWalk(keys, byPath, before, walks[k].value);
      if !ok {
        FlatGrows(walks, k + 1);
        DisagreementStays(before + walks[k].value, Flat(walks));
        return None;
      }
      assert Flat(walks[..k + 1]) == before + walks[k].value;
    }
    assert walks[..|walks|] == walks;
    RecordedAgrees(keys, byPath, Flat(walks));
    if keys == [] { return None; }
    var paths := SortUnique(LexLess, keys);
    LexTotal();
    SortUniqueSorts(LexLess, keys);
    PathsKnown(keys, byPath, Flat(walks), paths);
    var digests := seq(|paths|, i requires 0 <= i < |paths| => InputDigest(paths[i], byPath[paths[i]]));
    DigestsSorted(keys, byPath, Flat(walks), paths, digests);
    r := Some(digests);
  }

  /** One walk recorded, unless it contradicts what was seen. */
  method RecordWalk(keys: seq<string>, byPath: map<string, string>, ghost seen: seq<InputDigest>,
      walk: seq<InputDigest>)
    returns (ok: bool, keys': seq<string>, byPath': map<string, string>)
    requires Recorded(keys, byPath, seen)
    ensures ok ==> Recorded(keys', byPath', seen + walk)
    ensures !ok ==> !Agree(seen + walk)
  {
    hide Recorded, Agree;
    keys', byPath' := keys, byPath;
    assert seen + walk[..0] == seen;
    for k := 0 to |walk|
      invariant Recorded(keys', byPath', seen + walk[..k])
    {
      var d := walk[k];
      assert seen + walk[..k + 1] == seen + walk[..k] + [d];
      RecordedStep(keys', byPath', seen + walk[..k], d);
      if d.path in byPath' && byPath'[d.path] != d.sha256 {
        DisagreementStays(seen + walk[..k] + [d], seen + walk);
        return false, keys', byPath';
      }
      keys' := if d.path in byPath' then keys' else keys' + [d.path];
      byPath' := byPath'[d.path := d.sha256];
    }
    assert walk[..|walk|] == walk;
    ok := true;
  }

  lemma NothingRecorded()
    ensures Recorded([], map[], [])
  {
  }

  lemma RecordedStep(keys: seq<string>, byPath: map<string, string>, seen: seq<InputDigest>, d: InputDigest)
    requires Recorded(keys, byPath, seen)
    ensures d.path in byPath && byPath[d.path] != d.sha256 ==> !Agree(seen + [d])
    ensures !(d.path in byPath && byPath[d.path] != d.sha256) ==>
      Recorded(if d.path in byPath then keys else keys + [d.path], byPath[d.path := d.sha256], seen + [d])
  {
    var all := seen + [d];
    if d.path in byPath && byPath[d.path] != d.sha256 {
      assert InputDigest(d.path, byPath[d.path]) in all && d in all;
    } else {
      var next := byPath[d.path := d.sha256];
      forall p | p in next ensures InputDigest(p, next[p]) in all {
        if p == d.path { assert d in all; } else { assert InputDigest(p, byPath[p]) in all; }
      }
    }
  }

  lemma RecordedAgrees(keys: seq<string>, byPath: map<string, string>, seen: seq<InputDigest>)
    requires Recorded(keys, byPath, seen)
    ensures Agree(seen) && (keys == [] <==> seen == [])
  {
    if seen != [] { assert seen[0] in seen; }
    if keys != [] { assert keys[0] in keys; }
  }

  lemma DisagreementStays(some: seq<InputDigest>, all: seq<InputDigest>)
    requires !Agree(some) && some <= all
    ensures !Agree(all)
  {
    var a, b :| a in some && b in some && a.path == b.path && a != b;
    assert a in all && b in all;
  }

  lemma {:induction false} FlatGrows(walks: seq<Walk>, k: nat)
    requires k <= |walks|
    ensures Flat(walks[..k]) <= Flat(walks)
    decreases |walks| - k
  {
    if k < |walks| {
      FlatGrows(walks, k + 1);
      assert walks[..k + 1][..k] == walks[..k];
    } else {
      assert walks[..k] == walks;
    }
  }

  lemma PathsKnown(keys: seq<string>, byPath: map<string, string>, seen: seq<InputDigest>, paths: seq<string>)
    requires Recorded(keys, byPath, seen) && Elements(paths) == Elements(keys)
    ensures forall i :: 0 <= i < |paths| ==> paths[i] in byPath
    ensures forall p :: p in byPath ==> p in paths
  {
    forall i | 0 <= i < |paths| ensures paths[i] in byPath { assert paths[i] in Elements(paths); }
    forall p | p in byPath ensures p in paths { assert p in Elements(keys); }
  }

  lemma DigestsSorted(keys: seq<string>, byPath: map<string, string>, seen: seq<InputDigest>, paths: seq<string>,
      digests: seq<InputDigest>)
    requires Recorded(keys, byPath, seen) && Sorted(LexLess, paths) && |digests| == |paths|
    requires forall i :: 0 <= i < |paths| ==>
      paths[i] in byPath && digests[i] == InputDigest(paths[i], byPath[paths[i]])
    requires forall p :: p in byPath ==> p in paths
    ensures digests == SortUnique(DigestLess, seen)
  {
    DigestTotal();
    SortUniqueSorts(DigestLess, seen);
    forall d ensures d in Elements(digests) <==> d in Elements(seen) {
      if d in seen {
        var i :| 0 <= i < |paths| && paths[i] == d.path;
        assert digests[i] == d;
      }
    }
    assert Sorted(DigestLess, digests);
    SortedDetermined(DigestLess, digests, SortUnique(DigestLess, seen));
  }

  function Entries(ds: seq<InputDigest>): (r: seq<Json>)
    ensures |r| == |ds| && forall i :: 0 <= i < |r| ==> r[i] == Entry(ds[i].path, ds[i].sha256)
  {
    seq(|ds|, i requires 0 <= i < |ds| => Entry(ds[i].path, ds[i].sha256))
  }

  function Runtime(implementation: string, python: string): Json {
    Object(map["implementation" := Str(implementation), "python" := Str(python)])
  }

  ghost function Built(hash: Hash, walks: seq<Walk>, command: string, runtime: Json,
      tools: seq<string>): Option<map<string, Json>> {
    if Blank(command) || DigestsOf(walks).None? then None
    else Some(Keyed(hash,
      Identity(Str(command), runtime, List(Strs(SortUnique(LexLess, tools))), List(Entries(DigestsOf(walks).value)))))
  }

  method BuildManifest(hash: Hash, walks: seq<Walk>, command: string, implementation: string, python: string,
      tools: seq<string>)
    returns (r: Option<map<string, Json>>)
    ensures r == Built(hash, walks, command, Runtime(implementation, python), tools)
  {
    if Blank(command) { return None; }
    var digests := DigestInputs(walks);
    if digests.None? { return None; }
    var identity := Identity(Str(command), Runtime(implementation, python), List(Strs(SortUnique(LexLess, tools))),
      List(Entries(digests.value)));
    r := Some(Keyed(hash, identity));
  }

  // ---- Built identities are canonical ------------------------------------------------------------------------

  ghost predicate WellFormed(d: InputDigest) { d.path != "" && Sha256Hex(d.sha256) }

  ghost predicate Canonical(ds: seq<InputDigest>, previous: string) {
    && (forall i :: 0 <= i < |ds| ==> WellFormed(ds[i]) && LexLess(previous, ds[i].path))
    && forall i, j :: 0 <= i < j < |ds| ==> LexLess(ds[i].path, ds[j].path)
  }

  /** The accepted input lists are exactly the entries of well-formed digests in strictly ascending path order. */
  lemma InputsExactly(items: seq<Json>, previous: string)
    ensures InputsFrom(items, previous).Some? <==> exists ds :: Canonical(ds, previous) && items == Entries(ds)
  {
    if InputsFrom(items, previous).Some? { var ds := AcceptedAreCanonical(items, previous); }
    if exists ds :: Canonical(ds, previous) && items == Entries(ds) {
      var ds :| Canonical(ds, previous) && items == Entries(ds);
      CanonicalAreAccepted(ds, previous);
    }
  }

  lemma {:induction false} AcceptedAreCanonical(items: seq<Json>, previous: string) returns (ds: seq<InputDigest>)
    requires InputsFrom(items, previous).Some?
    ensures Canonical(ds, previous) && items == Entries(ds)
  {
    hide LexLess, WellFormed, ValidatedDigest, Canonical, PathOf, Entry;
    if items == [] {
      ds := [];
      NothingCanonical(previous);
    } else {
      var head := AcceptedEntry(items[0], previous);
      var rest := AcceptedAreCanonical(items[1..], head.path);
      ds := [head] + rest;
      assert items == [items[0]] + items[1..];
      ConsCanonical(head, rest, previous);
    }
  }

  lemma NothingCanonical(previous: string)
    ensures Canonical([], previous)
  {
  }

  lemma AcceptedEntry(item: Json, previous: string) returns (d: InputDigest)
    requires ValidatedDigest(item, previous).Some?
    ensures ValidatedDigest(item, previous).value == item == Entry(d.path, d.sha256)
    ensures WellFormed(d) && LexLess(previous, d.path) && PathOf(item) == d.path
  {
    hide LexLess, Sha256Hex;
    DigestUnchanged(item, previous);
    d := InputDigest(item.fields["path"].s, item.fields["sha256"].s);
    assert item.fields == map["path" := Str(d.path), "sha256" := Str(d.sha256)];
  }

  lemma ConsCanonical(head: InputDigest, rest: seq<InputDigest>, previous: string)
    requires WellFormed(head) && LexLess(previous, head.path) && Canonical(rest, head.path)
    ensures Canonical([head] + rest, previous)
  {
    hide LexLess, WellFormed;
    forall i | 0 <= i < |rest| ensures LexLess(previous, rest[i].path) {
      LexTransitive(previous, head.path, rest[i].path);
    }
  }

  lemma {:induction false} CanonicalAreAccepted(ds: seq<InputDigest>, previous: string)
    requires Canonical(ds, previous)
    ensures InputsFrom(Entries(ds), previous).Some?
  {
    if ds != [] {
      assert Entries(ds)[1..] == Entries(ds[1..]);
      assert ValidatedDigest(Entries(ds)[0], previous) == Some(Entry(ds[0].path, ds[0].sha256));
      CanonicalAreAccepted(ds[1..], ds[0].path);
    }
  }

  lemma BuiltInputsCanonical(walks: seq<Walk>)
    requires Digestible(walks) && forall d :: d in Flat(walks) ==> WellFormed(d)
    ensures Canonical(DigestsOf(walks).value, "") && DigestsOf(walks).value != []
  {
    hide WellFormed;
    var ds, all := DigestsOf(walks).value, Flat(walks);
    DigestTotal();
    SortUniqueSorts(DigestLess, all);
    NoElements(ds);
    NoElements(all);
    forall i | 0 <= i < |ds| ensures ds[i] in all { assert ds[i] in Elements(ds); }
    forall i, j | 0 <= i < j < |ds| ensures LexLess(ds[i].path, ds[j].path) {
      assert DigestLess(ds[i], ds[j]); DigestIrreflexive(ds[i], ds[j]);
    }
    forall i | 0 <= i < |ds| ensures LexLess("", ds[i].path) { assert WellFormed(ds[i]); PathNotEmpty(ds[i]); }
  }

  lemma DigestIrreflexive(a: InputDigest, b: InputDigest)
    requires DigestLess(a, b)
    ensures a != b
  {
    LexIrreflexive(a.path);
    LexIrreflexive(a.sha256);
  }

  lemma PathNotEmpty(d: InputDigest)
    requires WellFormed(d)
    ensures LexLess("", d.path)
  {
  }

  /** Whatever build_manifest returns, validation accepts as it stands. */
  lemma BuiltValidates(hash: Hash, walks: seq<Walk>, command: string, implementation: string, python: string,
      tools: seq<string>)
    requires implementation != "" && python != "" && forall d :: d in Flat(walks) ==> WellFormed(d)
    requires Built(hash, walks, command, Runtime(implementation, python), tools).Some?
    ensures var m := Built(hash, walks, command, Runtime(implementation, python), tools).value;
    Validated(hash, m) == Some(m)
  {
    hide Blank, WellFormed, Digestible, ValidatedTools, ValidatedRuntime, InputsFrom, Canonical;
    var ds, sorted := DigestsOf(walks).value, SortUnique(LexLess, tools);
    BuiltPartsValidate(walks, implementation, python, tools);
    InputsUnchanged(Entries(ds), "");
    var identity := Identity(Str(command), Runtime(implementation, python), List(Strs(sorted)), List(Entries(ds)));
    var m := Keyed(hash, identity);
    assert m.Keys == IDENTITY_FIELDS;
    assert Validated(hash, m) == Some(m);
  }

  lemma BuiltPartsValidate(walks: seq<Walk>, implementation: string, python: string, tools: seq<string>)
    requires implementation != "" && python != "" && (forall d :: d in Flat(walks) ==> WellFormed(d))
      && Digestible(walks)
    ensures ValidatedRuntime(Runtime(implementation, python)) == Some(Runtime(implementation, python))
    ensures var sorted := List(Strs(SortUnique(LexLess, tools))); ValidatedTools(sorted) == Some(sorted)
    ensures DigestsOf(walks).value != [] && InputsFrom(Entries(DigestsOf(walks).value), "").Some?
  {
    hide WellFormed, Digestible, InputsFrom;
    BuiltInputsCanonical(walks);
    CanonicalAreAccepted(DigestsOf(walks).value, "");
    RuntimeUnchanged(Runtime(implementation, python));
    var sorted := SortUnique(LexLess, tools);
    LexTotal();
    SortUniqueSorts(LexLess, tools);
    SortUniqueSorts(LexLess, sorted);
    SortedDetermined(LexLess, sorted, SortUnique(LexLess, sorted));
    assert Texts(Strs(sorted)) == sorted;
  }

  /** Declaring the same inputs and tools in another order, or more than once, builds the same identity or fails
      alike. */
  lemma BuiltForgetsOrder(hash: Hash, tree: string -> Walk, inputs: seq<string>, again: seq<string>, command: string,
      runtime: Json, tools: seq<string>, toolsAgain: seq<string>)
    requires Elements(inputs) == Elements(again) && Elements(tools) == Elements(toolsAgain)
    ensures Built(hash, Walks(tree, inputs), command, runtime, tools)
      == Built(hash, Walks(tree, again), command, runtime, toolsAgain)
  {
    hide Agree, Flat, Blank;
    LexTotal();
    DigestTotal();
    SortForgetsOrder(LexLess, tools, toolsAgain);
    FlatByElements(tree, inputs, again);
    FlatByElements(tree, again, inputs);
    var a, b := Flat(Walks(tree, inputs)), Flat(Walks(tree, again));
    assert Elements(a) == Elements(b);
    SortForgetsOrder(DigestLess, a, b);
    NoElements(a);
    NoElements(b);
    AgreeByElements(a, b);
  }

  lemma AgreeByElements(a: seq<InputDigest>, b: seq<InputDigest>)
    requires Elements(a) == Elements(b)
    ensures Agree(a) <==> Agree(b)
  {
    forall d ensures d in a <==> d in b { assert d in Elements(a) <==> d in Elements(b); }
  }

  function Walks(tree: string -> Walk, inputs: seq<string>): (r: seq<Walk>)
    ensures |r| == |inputs| && forall i :: 0 <= i < |r| ==> r[i] == tree(inputs[i])
  {
    seq(|inputs|, i requires 0 <= i < |inputs| => tree(inputs[i]))
  }

  lemma FlatByElements(tree: string -> Walk, inputs: seq<string>, again: seq<string>)
    requires Elements(inputs) <= Elements(again)
    ensures Elements(Flat(Walks(tree, inputs))) <= Elements(Flat(Walks(tree, again)))
    ensures (forall w :: w in Walks(tree, again) ==> w.Some?) ==> forall w :: w in Walks(tree, inputs) ==> w.Some?
  {
    var xs, ys := Walks(tree, inputs), Walks(tree, again);
    forall i | 0 <= i < |inputs| ensures xs[i] in ys {
      assert inputs[i] in Elements(again);
      var j :| 0 <= j < |again| && again[j] == inputs[i];
      assert ys[j] == xs[i];
    }
    forall d | d in Flat(xs) ensures d in Flat(ys) {
      var w := FlatMeans(xs, d);
      MeansFlat(ys, w, d);
    }
  }

  lemma {:induction false} FlatMeans(walks: seq<Walk>, d: InputDigest) returns (w: Walk)
    requires d in Flat(walks)
    ensures w in walks && w.Some? && d in w.value
  {
    var last := walks[|walks| - 1];
    if last.Some? && d in last.value { w := last; } else { w := FlatMeans(walks[..|walks| - 1], d); }
  }

  lemma {:induction false} MeansFlat(walks: seq<Walk>, w: Walk, d: InputDigest)
    requires w in walks && w.Some? && d in w.value
    ensures d in Flat(walks)
  {
    if w != walks[|walks| - 1] { MeansFlat(walks[..|walks| - 1], w, d); }
  }
}
