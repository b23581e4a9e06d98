/**
 * The log-level gate of src/console.js: a proxy over the console whose
 * `level` property, when set, silences every level ranked below it.
 * Property keys are strings; what a read yields is either the level, the
 * no-op function, or the console's own property.
 */
module Console {
  import opened Wrappers
  import Text

  /** `LEVELS`, lowest first. */
  const Levels: seq<string> := ["debug", "info", "log", "warn", "error", "silent"]

  datatype GateError = InvalidLogLevel

  /** What a property read through the proxy yields. */
  datatype Access = LevelValue(level: string) | Noop | Passthrough(prop: string)

  /** `s.findIndex(x => x === v)`: the first position holding `v`, or -1. */
  function FindIndex(s: seq<string>, v: string): (i: int)
    ensures -1 <= i < |s|
    ensures i == -1 <==> v !in s
    ensures i >= 0 ==> s[i] == v && v !in s[..i]
  {
    if |s| == 0 then -1
    else if s[0] == v then 0
    else
      var j := FindIndex(s[1..], v);
      assert j >= 0 ==> s[1..][..j] == s[1..j + 1];
      if j == -1 then -1 else j + 1
  }

  /** The prefix of `LEVELS` that a valid level silences: every level ranked below it. */
  function SilencedBelow(level: string): seq<string>
    requires level in Levels
  {
    Levels[..FindIndex(Levels, level)]
  }

  /**
   * The names the `in` operator finds on an array through its prototype
   * chain: the methods and accessors of `Array.prototype` and
   * `Object.prototype` (symbol keys aside), the short ones and the long ones.
   */
  const ShortInheritedKeys: set<string> := {
    "at", "map", "pop", "fill", "find", "flat", "join", "keys", "push", "some", "sort",
    "with", "every", "shift", "slice", "concat", "filter", "reduce", "splice", "values"}

  const LongInheritedKeys: set<string> := {
    "constructor", "copyWithin", "entries", "findIndex", "findLast", "findLastIndex",
    "flatMap", "forEach", "includes", "indexOf", "lastIndexOf", "reduceRight", "reverse",
    "toLocaleString", "toReversed", "toSorted", "toSpliced", "toString", "unshift",
    "hasOwnProperty", "isPrototypeOf", "propertyIsEnumerable", "valueOf",
    "__defineGetter__", "__defineSetter__", "__lookupGetter__", "__lookupSetter__", "__proto__"}

  const InheritedArrayKeys: set<string> := ShortInheritedKeys + LongInheritedKeys

  /** `prop in arr` for an array of length `len`: an index below `len`, `length`, or an inherited name. */
  predicate ArrayHas(len: nat, prop: string)
  {
    (exists i :: 0 <= i < len && prop == Text.DecimalString(i))
    || prop == "length" || prop in InheritedArrayKeys
  }

  /**
   * The get trap as written (src/console.js:16-22): `level` reads the
   * level; otherwise the no-op replaces the console's property exactly
   * when `prop in LEVELS && prop in silenced`, where `in` asks about the
   * arrays' keys, not their elements.
   */
  function Lookup(level: string, silenced: seq<string>, prop: string): (a: Access)
    ensures prop == "level" ==> a == LevelValue(level)
    ensures a.Passthrough? ==> a.prop == prop
  {
    if prop == "level" then LevelValue(level)
    else if ArrayHas(|Levels|, prop) && ArrayHas(|silenced|, prop) then Noop
    else Passthrough(prop)
  }

  /** The get trap as evidently intended: a method is replaced by the no-op exactly when its level is silenced. */
  function IntendedLookup(level: string, silenced: seq<string>, prop: string): Access
  {
    if prop == "level" then LevelValue(level)
    else if prop in Levels && prop in silenced then Noop
    else Passthrough(prop)
  }

  /** No level name is an array key: its digits, `length` and the inherited names are all something else. */
  lemma LevelNamesAreNotKeys(p: string, len: nat)
    requires p in Levels
    ensures !ArrayHas(len, p)
  {
    LevelNamesNotInherited();
    LevelNamesAreNotDigits(p);
  }

  lemma LevelNamesAreNotDigits(p: string)
    requires p in Levels
    ensures forall i: nat :: p != Text.DecimalString(i)
  {
    assert 'a' <= p[0] <= 'z';
  }

  lemma LevelNamesNotInherited()
    ensures forall p :: p in Levels ==> p !in InheritedArrayKeys && p != "length"
  {
    NotInherited("debug");
    NotInherited("info");
    NotInherited("log");
    NotInherited("warn");
    NotInherited("error");
    NotInherited("silent");
  }

  /** Every long inherited name has more than six characters. */
  lemma LongKeysAreLong(p: string)
    requires p in LongInheritedKeys
    ensures |p| > 6
  {
  }

  lemma NotInherited(p: string)
    requires p in Levels || p == "0"
    ensures p !in InheritedArrayKeys
  {
    if p in LongInheritedKeys {
      LongKeysAreLong(p);
    }
    if p == "debug" || p == "error" || p == "silent" {
      assert p !in ShortInheritedKeys;
    } else if p == "info" || p == "warn" {
      assert p !in ShortInheritedKeys;
    } else {
      assert p !in ShortInheritedKeys;
    }
  }

  /**
   * As written, no console method is ever silenced: reading `debug`, `info`,
   * `log`, `warn` or `error` (or `silent`) passes through to the console
   * whatever the level, even at `silent`.
   */
  lemma LookupNeverSilences(level: string, silenced: seq<string>, p: string)
    requires p in Levels
    ensures Lookup(level, silenced, p) == Passthrough(p)
  {
    LevelNamesAreNotKeys(p, |Levels|);
  }

  /** As written, the index key `0` reads as the no-op exactly when some level is silenced. */
  lemma IndexKeyIsGated(level: string, silenced: seq<string>)
    ensures Lookup(level, silenced, "0") == (if |silenced| > 0 then Noop else Passthrough("0"))
  {
    assert Text.DecimalString(0) == "0";
    NotInherited("0");
  }

  /** As written, `length` is a key of every array, so it always reads as the no-op. */
  lemma LengthIsGated(level: string, silenced: seq<string>)
    ensures Lookup(level, silenced, "length") == Noop
  {
    assert "length" != "level";
  }

  /**
   * As intended, once a valid level is set, a level's method is the no-op
   * exactly when that level ranks below the one set.
   */
  lemma IntendedSilencesBelow(level: string, p: string)
    requires level in Levels && p in Levels && p != "level"
    ensures IntendedLookup(level, SilencedBelow(level), p) == Noop <==> FindIndex(Levels, p) < FindIndex(Levels, level)
  {
    InPrefixBeforeIndex(Levels, FindIndex(Levels, level), p);
  }

  /** An element lies in the first `k` positions exactly when its first position is below `k`. */
  lemma InPrefixBeforeIndex(s: seq<string>, k: nat, p: string)
    requires k <= |s| && p in s
    ensures p in s[..k] <==> FindIndex(s, p) < k
  {
    var i := FindIndex(s, p);
    if i < k {
      assert s[..k][i] == p;
    }
    if p in s[..k] {
      var j :| 0 <= j < k && s[..k][j] == p;
      assert s[j] == p;
      assert j >= i;
    }
  }

  /** The default level `info` silences `debug` only; `debug` silences nothing; `silent` silences the five others. */
  lemma DefaultLevels()
    ensures SilencedBelow("info") == ["debug"]
    ensures SilencedBelow("debug") == []
    ensures SilencedBelow("silent") == ["debug", "info", "log", "warn", "error"]
  {
    LevelIndex("info", 1);
    LevelIndex("silent", 5);
  }

  lemma LevelIndex(p: string, k: nat)
    requires (p == "info" && k == 1) || (p == "silent" && k == 5)
    ensures FindIndex(Levels, p) == k && k <= |Levels|
  {
  }

  /** A prefix one longer is the prefix and the next element. */
  lemma PrefixSnoc(s: seq<string>, i: nat)
    requires i < |s|
    ensures s[..i + 1] == s[..i] + [s[i]]
  {
  }

  /** The state behind one `proxyConsole` call: the current `level` and the `silenced` list. */
  class LevelGate {
    var level: string
    var silenced: seq<string>

    /** Once a level is applied: the level is known and `silenced` holds exactly the levels ranked below it. */
    ghost predicate Valid()
      reads this
    {
      level in Levels && silenced == SilencedBelow(level)
    }

    /** The closure's initial state, before the initial level is applied. */
    constructor (init: string)
      ensures level == init && silenced == []
    {
      level := init;
      silenced := [];
    }

    /**
     * The set trap for `level` (src/console.js:24-31): an unknown level
     * throws before anything changes; a known one rebuilds `silenced` as
     * the levels ranked below it, in order, and becomes the level.
     */
    method SetLevel(value: string) returns (r: Result<(), GateError>)
      modifies this
      ensures r.Ok? <==> value in Levels
      ensures r.Err? ==> r.error == InvalidLogLevel && level == old(level) && silenced == old(silenced)
      ensures r.Ok? ==> level == value && silenced == SilencedBelow(value) && Valid()
    {
      var index := FindIndex(Levels, value);
      if index == -1 {
        return Err(InvalidLogLevel);
      }
      silenced := [];
      var i := 0;
      while i < index
        invariant 0 <= i <= index
        invariant silenced == Levels[..i]
      {
        PrefixSnoc(Levels, i);
        silenced := silenced + [Levels[i]];
        i := i + 1;
      }
      level := value;
      r := Ok(());
    }

    /** The set trap (src/console.js:23-33): only `level` is acted on; any other property is left alone. */
    method SetProperty(prop: string, value: string) returns (r: Result<(), GateError>)
      modifies this
      ensures prop != "level" ==> r.Ok? && level == old(level) && silenced == old(silenced)
      ensures prop == "level" ==> (r.Ok? <==> value in Levels)
      ensures prop == "level" && r.Err? ==> level == old(level) && silenced == old(silenced)
      ensures prop == "level" && r.Ok? ==> level == value && silenced == SilencedBelow(value)
    {
      if prop == "level" {
        r := SetLevel(value);
      } else {
        r := Ok(());
      }
    }

    /**
     * The get trap as written (src/console.js:16-22): `level` reads the
     * level; no level's method is ever replaced, whatever the level, while
     * `length` always reads as the no-op and the index key `0` does once
     * anything is silenced.
     */
    method Get(prop: string) returns (a: Access)
      requires Valid()
      ensures a == Lookup(level, silenced, prop)
      ensures prop == "level" ==> a == LevelValue(level)
      ensures prop in Levels ==> a == Passthrough(prop)
      ensures prop == "length" ==> a == Noop
      ensures prop == "0" ==> (a == Noop <==> |silenced| > 0)
    {
      if prop in Levels {
        LookupNeverSilences(level, silenced, prop);
      } else if prop == "0" {
        IndexKeyIsGated(level, silenced);
      } else if prop == "length" {
        LengthIsGated(level, silenced);
      }
      a := Lookup(level, silenced, prop);
    }

    /**
     * The get trap as evidently intended: `level` reads the level, a level's
     * method is the no-op exactly when that level ranks below the current
     * one, and anything else is the console's own.
     */
    method IntendedGet(prop: string) returns (a: Access)
      requires Valid()
      ensures a == IntendedLookup(level, silenced, prop)
      ensures prop == "level" ==> a == LevelValue(level)
      ensures prop in Levels ==> (a == Noop <==> FindIndex(Levels, prop) < FindIndex(Levels, level))
      ensures prop != "level" && prop !in Levels ==> a == Passthrough(prop)
    {
      if prop in Levels {
        IntendedSilencesBelow(level, prop);
      }
      a := IntendedLookup(level, silenced, prop);
    }
  }

  /** The default argument of `proxyConsole`. */
  const DefaultLevel: string := "info"

  /**
   * `proxyConsole(level = 'info')` (src/console.js:12-37): a gate whose
   * initial level is applied through the set trap, so an unknown initial
   * level throws.
   */
  method ProxyConsole(init: string := DefaultLevel) returns (r: Result<LevelGate, GateError>)
    ensures r.Ok? <==> init in Levels
    ensures r.Err? ==> r.error == InvalidLogLevel
    ensures r.Ok? ==> fresh(r.value) && r.value.Valid() && r.value.level == init && r.value.silenced == SilencedBelow(init)
  {
    var gate := new LevelGate(init);
    var applied := gate.SetLevel(init);
    if applied.Err? {
      return Err(applied.error);
    }
    r := Ok(gate);
  }

  /**
   * The default export `proxyConsole()` (src/console.js:39): built with the
   * default level, it never throws, and it silences `debug` only.
   */
  method DefaultConsole() returns (gate: LevelGate)
    ensures fresh(gate) && gate.Valid()
    ensures gate.level == DefaultLevel && gate.silenced == ["debug"]
  {
    var r := ProxyConsole();
    DefaultLevels();
    gate := r.value;
  }
}
