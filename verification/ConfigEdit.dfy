/** Dotted-path reading and writing of a configuration tree. */
module ConfigEdit {
  import opened Sequences
  import opened Decimal
  import opened Text

  /** A JSON value. `Float` stands for a finite 64-bit float. */
  datatype Json =
    | Null
    | Bool(b: bool)
    | Int(n: int)
    | Float(bits: bv64)
    | Str(s: string)
    | Array(items: seq<Json>)
    | Object(fields: map<string, Json>)

  type Path = seq<string>

  // ---- keys ----

  /** `key.split('.')` */
  function Split(key: string): (parts: Path)
    ensures |parts| > 0
    ensures forall p :: p in parts ==> '.' !in p
  {
    if key == [] then [[]]
    else
      var rest := Split(key[1..]);
      if key[0] == '.' then [[]] + rest
      else [[key[0]] + rest[0]] + rest[1..]
  }

  function JoinDots(parts: Path): (key: string)
    requires |parts| > 0
  {
    if |parts| == 1 then parts[0] else parts[0] + "." + JoinDots(parts[1..])
  }

  predicate Blank(s: string) {
    forall i :: 0 <= i < |s| ==> IsWhitespace(s[i])
  }

  function SplitPath(key: string): (r: Option<Path>) {
    var parts := Split(key);
    if exists i :: 0 <= i < |parts| && Blank(parts[i]) then None else Some(parts)
  }

  /** A key is exactly its segments joined by dots, so distinct keys name distinct paths. */
  lemma {:induction false} SplitThenJoin(key: string)
    ensures JoinDots(Split(key)) == key
  {
    if key == [] {
    } else {
      var rest := Split(key[1..]);
      SplitThenJoin(key[1..]);
      assert key == [key[0]] + key[1..];
      if key[0] == '.' {
        assert ([[]] + rest)[1..] == rest;
      } else if |rest| > 1 {
        var parts := [[key[0]] + rest[0]] + rest[1..];
        assert parts[1..] == rest[1..];
        assert JoinDots(parts) == [key[0]] + rest[0] + "." + JoinDots(rest[1..]);
      }
    }
  }

  /** A key is accepted if and only if every segment has a visible character, and then as its own segments. */
  lemma SplitPathIff(key: string)
    ensures SplitPath(key).Some? <==> forall p :: p in Split(key) ==> exists i :: 0 <= i < |p| && !IsWhitespace(p[i])
    ensures SplitPath(key).Some? ==> JoinDots(SplitPath(key).value) == key
  {
    SplitThenJoin(key);
    forall p | p in Split(key) ensures Blank(p) <==> !exists i :: 0 <= i < |p| && !IsWhitespace(p[i]) {
    }
  }

  /** Every path of dot-free segments is the path of its joined key. */
  lemma {:induction false} JoinThenSplit(parts: Path)
    requires |parts| > 0 && forall p :: p in parts ==> '.' !in p
    ensures Split(JoinDots(parts)) == parts
    decreases |parts|, |parts[0]|
  {
    var key := JoinDots(parts);
    if parts[0] == [] {
      if |parts| > 1 {
        assert key[1..] == JoinDots(parts[1..]);
        JoinThenSplit(parts[1..]);
        assert parts == [[]] + parts[1..];
      } else {
        assert parts == [[]];
      }
    } else {
      var shorter := [parts[0][1..]] + parts[1..];
      assert parts[0] in parts && parts[0][0] != '.';
      assert shorter[1..] == parts[1..];
      assert key[1..] == JoinDots(shorter);
      JoinThenSplit(shorter);
      assert parts[0] == [parts[0][0]] + parts[0][1..];
      assert parts == [parts[0]] + parts[1..];
    }
  }

  // ---- lookup and assign ----

  function Lookup(root: Json, path: Path): (r: Option<Json>)
    decreases |path|
  {
    if path == [] then Some(root)
    else if root.Object? && path[0] in root.fields then Lookup(root.fields[path[0]], path[1..])
    else None
  }

  /** Reading one segment further: the value before must be a table that has the segment. */
  lemma {:induction false} LookupAppend(root: Json, path: Path, seg: string)
    ensures var t := Lookup(root, path);
      Lookup(root, path + [seg]) ==
      if t.Some? && t.value.Object? && seg in t.value.fields then Some(t.value.fields[seg]) else None
    decreases |path|
  {
    if path == [] {
      assert (path + [seg])[1..] == [];
    } else {
      assert (path + [seg])[1..] == path[1..] + [seg];
      if root.Object? && path[0] in root.fields {
        LookupAppend(root.fields[path[0]], path[1..], seg);
      }
    }
  }

  /** The walk of `lookup`. */
  method LookupWalk(root: Json, path: Path) returns (r: Option<Json>)
    ensures r == Lookup(root, path)
  {
    var cur := root;
    var i := 0;
    while i < |path|
      invariant 0 <= i <= |path|
      invariant Lookup(root, path) == Lookup(cur, path[i..])
    {
      if !cur.Object? || path[i] !in cur.fields {
        return None;
      }
      assert path[i..][1..] == path[i + 1..];
      cur := cur.fields[path[i]];
      i := i + 1;
    }
    assert path[i..] == [];
    r := Some(cur);
  }

  /** The tree after `assign` and whether it succeeded. A missing table is created before the recursive
      call, so the tree of a failed call is part of the result and not simply the old tree. */
  function Assign(root: Json, path: Path, value: Json): (r: (Json, bool))
    decreases |path|
  {
    if path == [] then (value, true)
    else if !root.Object? then (root, false)
    else
      var entry := if path[0] in root.fields then root.fields[path[0]] else Object(map[]);
      var (after, ok) := Assign(entry, path[1..], value);
      (Object(root.fields[path[0] := after]), ok)
  }

  /** The table `assign` descends into for the first segment. */
  function Entry(root: Json, seg: string): (r: Json)
    requires root.Object?
  {
    if seg in root.fields then root.fields[seg] else Object(map[])
  }

  /** Some proper prefix of `path` leads to a value that is not a table. */
  ghost predicate Blocked(root: Json, path: Path) {
    exists k :: 0 <= k < |path| && Lookup(root, path[..k]).Some? && !Lookup(root, path[..k]).value.Object?
  }

  lemma EmptyTableUnblocked(path: Path)
    ensures !Blocked(Object(map[]), path)
  {
  }

  lemma BlockedStep(root: Json, path: Path)
    requires path != [] && root.Object?
    ensures Blocked(root, path) <==> Blocked(Entry(root, path[0]), path[1..])
  {
    var e, rest := Entry(root, path[0]), path[1..];
    forall k | 0 < k < |path| ensures Lookup(root, path[..k]) ==
        if path[0] in root.fields then Lookup(e, rest[..k - 1]) else None
    {
      assert path[..k][1..] == rest[..k - 1];
    }
    if Blocked(root, path) {
      var k :| 0 <= k < |path| && Lookup(root, path[..k]).Some? && !Lookup(root, path[..k]).value.Object?;
      assert path[..0] == [];
      assert k > 0;
      assert Lookup(e, rest[..k - 1]).Some?;
    }
    if Blocked(e, rest) {
      var k :| 0 <= k < |rest| && Lookup(e, rest[..k]).Some? && !Lookup(e, rest[..k]).value.Object?;
      if path[0] in root.fields {
        assert Lookup(root, path[..k + 1]) == Lookup(e, rest[..k]);
      } else {
        EmptyTableUnblocked(rest);
      }
    }
  }

  /** `assign` fails exactly when a proper prefix of the path holds a value that is not a table, and then
      it leaves the tree as it was. */
  lemma {:induction false} AssignFailsIff(root: Json, path: Path, value: Json)
    ensures !Assign(root, path, value).1 <==> Blocked(root, path)
    ensures !Assign(root, path, value).1 ==> Assign(root, path, value).0 == root
    decreases |path|
  {
    if path == [] {
    } else {
      if root.Object? {
        var e := Entry(root, path[0]);
        AssignFailsIff(e, path[1..], value);
        BlockedStep(root, path);
        if path[0] in root.fields {
          assert root.fields[path[0] := e] == root.fields;
        } else {
          EmptyTableUnblocked(path[1..]);
        }
      } else {
        assert path[..0] == [];
        assert Lookup(root, path[..0]) == Some(root);
      }
    }
  }

  /** What was assigned is read back at its path and everywhere below it. */
  lemma {:induction false} AssignThenLookup(root: Json, path: Path, value: Json, below: Path)
    requires Assign(root, path, value).1
    ensures Lookup(Assign(root, path, value).0, path + below) == Lookup(value, below)
    decreases |path|
  {
    if path == [] {
      assert path + below == below;
    } else {
      assert (path + below)[1..] == path[1..] + below;
      AssignThenLookup(Entry(root, path[0]), path[1..], value, below);
    }
  }

  /** Neither path is a prefix of the other. */
  predicate Apart(p: Path, q: Path)
    decreases |p|
  {
    p != [] && q != [] && (p[0] != q[0] || Apart(p[1..], q[1..]))
  }

  lemma {:induction false} ApartMeansNoPrefix(p: Path, q: Path)
    ensures Apart(p, q) <==> !(p <= q) && !(q <= p)
    decreases |p|
  {
    if p == [] || q == [] || p[0] != q[0] {
    } else {
      ApartMeansNoPrefix(p[1..], q[1..]);
      assert p == [p[0]] + p[1..] && q == [q[0]] + q[1..];
      assert p <= q <==> p[1..] <= q[1..];
      assert q <= p <==> q[1..] <= p[1..];
    }
  }

  /** Paths that are not prefix-related to the assigned one read as before. */
  lemma {:induction false} AssignLeavesOthers(root: Json, path: Path, value: Json, other: Path)
    requires Apart(path, other)
    ensures Lookup(Assign(root, path, value).0, other) == Lookup(root, other)
    decreases |path|
  {
    if !root.Object? || path[0] != other[0] {
    } else {
      var e := Entry(root, path[0]);
      AssignLeavesOthers(e, path[1..], value, other[1..]);
      if path[0] !in root.fields {
        assert other[1..] != [];
      }
    }
  }

  /** On the way to the assigned path there are tables, whether found or created. */
  lemma {:induction false} AssignMakesTables(root: Json, path: Path, value: Json, k: nat)
    requires Assign(root, path, value).1 && k < |path|
    ensures var r := Lookup(Assign(root, path, value).0, path[..k]); r.Some? && r.value.Object?
    decreases |path|
  {
    if k == 0 {
      assert path[..k] == [];
    } else {
      AssignMakesTables(Entry(root, path[0]), path[1..], value, k - 1);
      assert path[..k][1..] == path[1..][..k - 1];
    }
  }

  /** A second assignment at the same path replaces the first without trace. */
  lemma {:induction false} AssignTwice(root: Json, path: Path, first: Json, second: Json)
    requires Assign(root, path, first).1
    ensures Assign(Assign(root, path, first).0, path, second) == Assign(root, path, second)
    decreases |path|
  {
    if path == [] {
    } else {
      var e := Entry(root, path[0]);
      AssignTwice(e, path[1..], first, second);
      var mid := Assign(e, path[1..], first).0;
      var last := Assign(e, path[1..], second).0;
      assert root.fields[path[0] := mid][path[0] := last] == root.fields[path[0] := last];
    }
  }

  /** Assigning the value that is already there changes nothing. */
  lemma {:induction false} AssignSame(root: Json, path: Path, value: Json)
    requires Lookup(root, path) == Some(value)
    ensures Assign(root, path, value) == (root, true)
    decreases |path|
  {
    if path == [] {
    } else {
      AssignSame(root.fields[path[0]], path[1..], value);
      assert root.fields[path[0] := root.fields[path[0]]] == root.fields;
    }
  }

  // ---- text of scalars ----

  const I64_LIMIT: int := 0x8000_0000_0000_0000
  const U64_LIMIT: int := 0x1_0000_0000_0000_0000

  function ParseUnsigned(s: string): (r: Option<int>)
    ensures r.Some? ==> r.value >= 0
  {
    if s == [] then None
    else if s[0] == '+' then (if |s| > 1 && AllDigits(s[1..]) then Some(Value(s[1..])) else None)
    else if AllDigits(s) then Some(Value(s))
    else None
  }

  /** Digits with an optional sign, as `parse::<i64>` reads them before its range check. */
  function ParseSigned(s: string): (r: Option<int>) {
    if s == [] then None
    else if s[0] == '-' then (if |s| > 1 && AllDigits(s[1..]) then Some(0 - Value(s[1..]) as int) else None)
    else ParseUnsigned(s)
  }

  function ParseI64(s: string): (r: Option<int>) {
    var n := ParseSigned(s);
    if n.Some? && -I64_LIMIT <= n.value < I64_LIMIT then n else None
  }

  function ParseU64(s: string): (r: Option<int>) {
    var n := ParseUnsigned(s);
    if n.Some? && n.value < U64_LIMIT then n else None
  }

  function PrintInt(n: int): (s: string) {
    if n < 0 then "-" + Decimal.Print(-n) else Decimal.Print(n)
  }

  /** The text codecs of the JSON and float libraries. */
  datatype Codec = Codec(parseFloat: string -> Option<Json>, parseJson: string -> Option<Json>, encode: Json -> string)

  function CoerceNumber(raw: string, codec: Codec): (r: Json) {
    if ParseI64(raw).Some? then Int(ParseI64(raw).value)
    else if ParseU64(raw).Some? then Int(ParseU64(raw).value)
    else match codec.parseFloat(raw) case Some(v) => v case None => Str(raw)
  }

  function Coerce(existing: Option<Json>, raw: string, codec: Codec): (r: Json) {
    match existing
    case Some(Bool(_)) => if raw == "true" then Bool(true) else if raw == "false" then Bool(false) else Str(raw)
    case Some(Int(_)) => CoerceNumber(raw, codec)
    case Some(Float(_)) => CoerceNumber(raw, codec)
    case Some(Str(_)) => Str(raw)
    case _ => (match codec.parseJson(raw) case Some(v) => v case None => Str(raw))
  }

  function Render(value: Json, codec: Codec): (s: string) {
    match value
    case Str(s) => s
    case Null => "null"
    case Bool(b) => if b then "true" else "false"
    case Int(n) => PrintInt(n)
    case _ => codec.encode(value)
  }

  /** `config set`: interpret the text by the stored type and assign it. */
  function Set(root: Json, path: Path, raw: string, codec: Codec): (r: (Json, bool)) {
    Assign(root, path, Coerce(Lookup(root, path), raw, codec))
  }

  predicate IsScalar(v: Json) {
    v.Null? || v.Bool? || v.Str? || (v.Int? && -I64_LIMIT <= v.n < U64_LIMIT)
  }

  lemma PrintedIntParses(n: int)
    ensures ParseSigned(PrintInt(n)) == Some(n)
    ensures n >= 0 ==> ParseUnsigned(PrintInt(n)) == Some(n)
  {
    if n < 0 {
      PrintThenValue(-n);
      assert PrintInt(n)[1..] == Decimal.Print(-n);
    } else {
      PrintThenValue(n);
      assert IsDigit(Decimal.Print(n)[0]);
    }
  }

  /** `s` is the decimal text of `n`: digits, leading zeros allowed, with an optional sign. */
  ghost predicate IsIntegerText(s: string, n: int) {
    exists d ::
      && d != [] && AllDigits(d)
      && ((s == d && n == Value(d)) || (s == "+" + d && n == Value(d)) || (s == "-" + d && n + Value(d) == 0))
  }

  lemma SignedText(d: string)
    requires d != [] && AllDigits(d)
    ensures ParseSigned(d) == Some(Value(d)) && ParseSigned("+" + d) == Some(Value(d))
    ensures ParseSigned("-" + d) == Some(0 - Value(d) as int)
  {
    assert ("+" + d)[1..] == d && ("-" + d)[1..] == d;
    assert IsDigit(d[0]);
  }

  /** Which texts are read as integers, and as which. */
  lemma ParseSignedIff(s: string, n: int)
    ensures ParseSigned(s) == Some(n) <==> IsIntegerText(s, n)
  {
    if IsIntegerText(s, n) {
      var d :| d != [] && AllDigits(d)
        && ((s == d && n == Value(d)) || (s == "+" + d && n == Value(d)) || (s == "-" + d && n + Value(d) == 0));
      SignedText(d);
    }
    if ParseSigned(s) == Some(n) {
      if s[0] == '-' || s[0] == '+' {
        assert s == [s[0]] + s[1..];
        assert s[1..] != [] && AllDigits(s[1..]);
      } else {
        assert AllDigits(s);
      }
    }
  }

  /** An integer is printed without a plus sign and without leading zeros. */
  lemma PrintIntIs(n: int)
    ensures IsIntegerText(PrintInt(n), n)
    ensures n >= 0 ==> Canonical(PrintInt(n))
    ensures n < 0 ==> PrintInt(n)[0] == '-' && Canonical(PrintInt(n)[1..])
  {
    PrintedIntParses(n);
    ParseSignedIff(PrintInt(n), n);
    PrintIsCanonical(if n < 0 then -n else n);
    if n < 0 {
      assert PrintInt(n)[1..] == Decimal.Print(-n);
    }
  }

  /** What a text becomes where no number is stored: a boolean takes exactly `true` and `false`, a string takes
      anything, and an absent key, a null, an array or a table takes a JSON literal; all else is kept as a string. */
  lemma CoerceByType(existing: Option<Json>, raw: string, codec: Codec)
    ensures existing.Some? && existing.value.Bool? ==>
      var v := Coerce(existing, raw, codec);
      && (v == Bool(true) <==> raw == "true") && (v == Bool(false) <==> raw == "false")
      && (raw != "true" && raw != "false" ==> v == Str(raw))
    ensures existing.Some? && existing.value.Str? ==> Coerce(existing, raw, codec) == Str(raw)
    ensures existing.None? || existing.value.Null? || existing.value.Array? || existing.value.Object? ==>
      var json := codec.parseJson(raw);
      Coerce(existing, raw, codec) == if json.Some? then json.value else Str(raw)
  {
  }

  /** A numeric field takes every integer text in the range of `i64` or `u64`, sign and leading zeros
      allowed, as exactly that integer; other text is left to the float parser or kept as a string. */
  lemma NumericFieldTakesIntegers(existing: Json, raw: string, codec: Codec)
    requires existing.Int? || existing.Float?
    ensures forall n :: IsIntegerText(raw, n) && -0x8000_0000_0000_0000 <= n < 0x1_0000_0000_0000_0000 ==>
      Coerce(Some(existing), raw, codec) == Int(n)
    ensures (forall n :: -0x8000_0000_0000_0000 <= n < 0x1_0000_0000_0000_0000 ==> !IsIntegerText(raw, n)) ==>
      Coerce(Some(existing), raw, codec) == match codec.parseFloat(raw) case Some(v) => v case None => Str(raw)
  {
    forall n ensures ParseSigned(raw) == Some(n) <==> IsIntegerText(raw, n) {
      ParseSignedIff(raw, n);
    }
    if ParseSigned(raw).Some? {
      assert IsIntegerText(raw, ParseSigned(raw).value);
    }
  }

  /** Interpreting the rendering of a null, bool, string or 64-bit integer by its own type gives it back. */
  lemma CoerceOwnRendering(v: Json, codec: Codec)
    requires IsScalar(v) && codec.parseJson("null") == Some(Null)
    ensures Coerce(Some(v), Render(v, codec), codec) == v
  {
    if v.Int? {
      PrintedIntParses(v.n);
    }
  }

  /** So `config set key $(config get key)` is a no-op on such values. */
  lemma SetOwnRenderingIsNoOp(root: Json, path: Path, v: Json, codec: Codec)
    requires IsScalar(v) && codec.parseJson("null") == Some(Null) && Lookup(root, path) == Some(v)
    ensures Set(root, path, Render(v, codec), codec) == (root, true)
  {
    CoerceOwnRendering(v, codec);
    AssignSame(root, path, v);
  }
}
