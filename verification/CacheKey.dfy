/** Content-addressed cache keys (internal/cache/key.go). */
module CacheKeys {
  import opened Wrappers
  import opened Sorting

  const CACHE_KEY_VERSION := 1

  datatype CacheKey = CacheKey(
    contentHash: string,
    kind: string,
    toolVersion: string,
    configHash: string,
    sourceMapInputs: seq<string>,
    schemaVersion: int)

  datatype KeyError =
    | EmptyWasm | EmptyKind | EmptyToolVersion
    | BadContentHash | EmptyConfigHash | UnsupportedSchema(version: int)

  /** SHA-256 in hex, and the JSON form of a key's fields. */
  datatype Lib = Lib(sha: string -> string, marshal: CacheKey -> string)
  {
    ghost predicate Sound() {
      && (forall x :: |sha(x)| == 64)
      && (forall k, l :: marshal(k) == marshal(l) ==> k == l)
    }
  }

  /** The text hashed for a configuration: its JSON form, or an empty object when there is none. */
  function ConfigText(config: Option<string>): string {
    match config
    case None => "{}"
    case Some(json) => json
  }

  /** The non-empty inputs. */
  function InputSet(inputs: seq<string>): set<string> {
    set s | s in inputs && s != ""
  }

  /** Dedup with a seen-set, then sort. */
  method NormalizeInputs(inputs: seq<string>) returns (r: seq<string>)
    ensures Ascending(r, InputSet(inputs))
  {
    hide StringLe, SortedBy;
    var seen: set<string> := {};
    var found: seq<string> := [];
    for i := 0 to |inputs|
      invariant seen == InputSet(inputs[..i])
      invariant forall k :: k in found <==> k in seen
      invariant forall j, k | 0 <= j < k < |found| :: found[j] != found[k]
    {
      var s := inputs[i];
      assert inputs[..i + 1] == inputs[..i] + [s];
      if s != "" && s !in seen {
        seen := seen + {s};
        found := found + [s];
      }
    }
    assert inputs[..|inputs|] == inputs;
    r := Sort(StringLe, found);
    SortAscending(found, InputSet(inputs));
  }

  /** k is the key of these inputs. */
  ghost predicate IsKey(lib: Lib, k: CacheKey, wasm: string, kind: string, tool: string, config: Option<string>, inputs: seq<string>) {
    && k.contentHash == lib.sha(wasm)
    && k.kind == kind && k.toolVersion == tool
    && k.configHash == lib.sha(ConfigText(config))
    && Ascending(k.sourceMapInputs, InputSet(inputs))
    && k.schemaVersion == CACHE_KEY_VERSION
  }

  method NewCacheKey(lib: Lib, wasm: string, kind: string, tool: string, config: Option<string>, inputs: seq<string>)
    returns (r: Result<CacheKey, KeyError>)
    ensures r.Ok? <==> wasm != "" && kind != "" && tool != ""
    ensures r.Ok? ==> IsKey(lib, r.value, wasm, kind, tool, config, inputs)
    ensures r.Err? ==> r.error == if wasm == "" then EmptyWasm else if kind == "" then EmptyKind else EmptyToolVersion
  {
    if |wasm| == 0 {
      return Err(EmptyWasm);
    }
    if kind == "" {
      return Err(EmptyKind);
    }
    if tool == "" {
      return Err(EmptyToolVersion);
    }
    var normal := NormalizeInputs(inputs);
    r := Ok(CacheKey(lib.sha(wasm), kind, tool, lib.sha(ConfigText(config)), normal, CACHE_KEY_VERSION));
  }

  function Validate(k: CacheKey): Option<KeyError> {
    if |k.contentHash| != 64 then Some(BadContentHash)
    else if k.kind == "" then Some(EmptyKind)
    else if k.toolVersion == "" then Some(EmptyToolVersion)
    else if k.configHash == "" then Some(EmptyConfigHash)
    else if k.schemaVersion != CACHE_KEY_VERSION then Some(UnsupportedSchema(k.schemaVersion))
    else None
  }

  function Digest(lib: Lib, k: CacheKey): Result<string, KeyError> {
    match Validate(k)
    case Some(e) => Err(e)
    case None => Ok(lib.sha(lib.marshal(k)))
  }

  /** The hash separates x from y. */
  predicate Separates(lib: Lib, x: string, y: string) {
    lib.sha(x) == lib.sha(y) ==> x == y
  }

  /** A constructed key always has a digest. */
  lemma BuiltKeysValidate(lib: Lib, k: CacheKey, wasm: string, kind: string, tool: string, config: Option<string>, inputs: seq<string>)
    requires lib.Sound() && kind != "" && tool != ""
    requires IsKey(lib, k, wasm, kind, tool, config, inputs)
    ensures Digest(lib, k) == Ok(lib.sha(lib.marshal(k)))
  {
    assert |lib.sha(ConfigText(config))| == 64;
  }

  /**
   * Two digests agree exactly when the bytes, the kind, the tool version, the configuration text
   * and the set of non-empty source-map inputs agree, as long as the hash separates what is hashed.
   */
  lemma DigestExact(lib: Lib,
      k: CacheKey, wasm: string, kind: string, tool: string, config: Option<string>, inputs: seq<string>,
      l: CacheKey, wasm': string, kind': string, tool': string, config': Option<string>, inputs': seq<string>)
    requires lib.Sound() && kind != "" && tool != "" && kind' != "" && tool' != ""
    requires IsKey(lib, k, wasm, kind, tool, config, inputs)
    requires IsKey(lib, l, wasm', kind', tool', config', inputs')
    requires Separates(lib, wasm, wasm') && Separates(lib, ConfigText(config), ConfigText(config'))
    requires Separates(lib, lib.marshal(k), lib.marshal(l))
    ensures Digest(lib, k).Ok? && Digest(lib, l).Ok?
    ensures Digest(lib, k) == Digest(lib, l) <==>
      wasm == wasm' && kind == kind' && tool == tool' && ConfigText(config) == ConfigText(config')
      && InputSet(inputs) == InputSet(inputs')
  {
    hide Ascending;
    BuiltKeysValidate(lib, k, wasm, kind, tool, config, inputs);
    BuiltKeysValidate(lib, l, wasm', kind', tool', config', inputs');
    if InputSet(inputs) == InputSet(inputs') {
      AscendingUnique(k.sourceMapInputs, l.sourceMapInputs, InputSet(inputs));
    } else {
      MembersDiffer(k.sourceMapInputs, InputSet(inputs), l.sourceMapInputs, InputSet(inputs'));
    }
  }

  lemma MembersDiffer(xs: seq<string>, s: set<string>, ys: seq<string>, t: set<string>)
    requires Ascending(xs, s) && Ascending(ys, t) && s != t
    ensures xs != ys
  {
    if xs == ys {
      assert forall k :: k in s <==> k in t;
    }
  }

  /** Empty inputs, repetitions and order of the inputs do not matter, and nothing else about them is lost. */
  lemma InputsExact(lib: Lib, k: CacheKey, wasm: string, kind: string, tool: string, config: Option<string>, a: seq<string>, b: seq<string>)
    requires IsKey(lib, k, wasm, kind, tool, config, a)
    ensures IsKey(lib, k, wasm, kind, tool, config, b) <==> forall s :: s != "" ==> (s in a <==> s in b)
  {
    hide SortedBy;
    if IsKey(lib, k, wasm, kind, tool, config, b) {
      forall s | s != "" ensures s in a <==> s in b {
        assert s in InputSet(a) <==> s in k.sourceMapInputs;
        assert s in InputSet(b) <==> s in k.sourceMapInputs;
      }
    }
    if forall s :: s != "" ==> (s in a <==> s in b) {
      assert InputSet(a) == InputSet(b);
    }
  }

  /** A missing configuration counts as an empty one. */
  lemma ConfigDefault(lib: Lib, k: CacheKey, wasm: string, kind: string, tool: string, inputs: seq<string>)
    ensures IsKey(lib, k, wasm, kind, tool, None, inputs) <==> IsKey(lib, k, wasm, kind, tool, Some(['{', '}']), inputs)
  {
  }

  /** A key has a digest exactly when it has a digest of 64 characters, a kind, a tool version, a configuration and the current version. */
  lemma DigestsExist(lib: Lib, k: CacheKey)
    ensures Digest(lib, k).Ok? <==>
      |k.contentHash| == 64 && k.kind != "" && k.toolVersion != "" && k.configHash != "" && k.schemaVersion == 1
  {
  }
}
