/**
 * `src/validation.ts`: the three argument schemas as predicates over
 * JavaScript values, the formatting of a validator error as a property path
 * and an assertion message, and the `assertIs*` guards. The validator itself
 * is not modelled; the error record it reports is an input.
 */
module Validation {
  import opened Wrappers

  /** A JavaScript value as the guards see it. */
  datatype Value =
    | Null
    | Bool(b: bool)
    | Num(n: int)
    | Str(s: string)
    | Arr(items: seq<Value>)
    | Obj(fields: map<string, Value>)

  /** The one error the validator reports (`allErrors` is off). */
  datatype AjvError = AjvError(instancePath: string, schemaPath: string, message: string)

  // ---------------------------------------------------------------------------
  // The schemas
  // ---------------------------------------------------------------------------

  /** `truthyStringSchema`: a string of at least one character. */
  predicate IsTruthyString(v: Value) {
    v.Str? && |v.s| >= 1
  }

  /** `truthyStringArraySchema`: an array whose every item is a truthy string. */
  predicate IsTruthyStringArray(v: Value) {
    v.Arr? && forall i :: 0 <= i < |v.items| ==> IsTruthyString(v.items[i])
  }

  /** The `delimiters` sub-schema: an object whose `left`/`right`, when present, are truthy strings. */
  predicate IsDelimiters(v: Value) {
    v.Obj? &&
    ("left" in v.fields ==> IsTruthyString(v.fields["left"])) &&
    ("right" in v.fields ==> IsTruthyString(v.fields["right"]))
  }

  /** `optionsSchema`: an object whose `delimiters` and `flatten`, when present, are well typed. */
  predicate IsOptions(v: Value) {
    v.Obj? &&
    ("delimiters" in v.fields ==> IsDelimiters(v.fields["delimiters"])) &&
    ("flatten" in v.fields ==> v.fields["flatten"].Bool?)
  }

  // ---------------------------------------------------------------------------
  // String.prototype.split with a one-character separator
  // ---------------------------------------------------------------------------

  /** `s.split(sep)`: the pieces between separators, an empty string giving `[""]`. */
  function Split(s: string, sep: char): (r: seq<string>)
    ensures |r| >= 1
  {
    if s == [] then [""]
    else
      var rest := Split(s[1..], sep);
      if s[0] == sep then [""] + rest else [[s[0]] + rest[0]] + rest[1..]
  }

  /** `parts.join(sep)`. */
  function Join(parts: seq<string>, sep: char): string
    requires |parts| >= 1
  {
    if |parts| == 1 then parts[0] else parts[0] + [sep] + Join(parts[1..], sep)
  }

  /** Putting a character in front of the first piece puts it in front of the joined string. */
  lemma JoinConsHead(c: char, parts: seq<string>, sep: char)
    requires |parts| >= 1
    ensures Join([[c] + parts[0]] + parts[1..], sep) == [c] + Join(parts, sep)
  {
    var q := [[c] + parts[0]] + parts[1..];
    assert q[1..] == parts[1..];
  }

  /** Splitting loses nothing: joining the pieces gives the string back. */
  lemma {:induction false} JoinSplit(s: string, sep: char)
    ensures Join(Split(s, sep), sep) == s
  {
    if s != [] {
      var rest := Split(s[1..], sep);
      JoinSplit(s[1..], sep);
      if s[0] == sep {
        assert ([""] + rest)[1..] == rest;
      } else {
        JoinConsHead(s[0], rest, sep);
      }
      assert s == [s[0]] + s[1..];
    }
  }

  /** A string without the separator is a single piece. */
  lemma {:induction false} SplitWithout(s: string, sep: char)
    requires sep !in s
    ensures Split(s, sep) == [s]
  {
    if s != [] {
      SplitWithout(s[1..], sep);
      assert s == [s[0]] + s[1..];
    }
  }

  /** A separator followed by a separator-free piece adds exactly that piece. */
  lemma {:induction false} SplitAppend(s: string, sep: char, piece: string)
    requires sep !in piece
    ensures Split(s + [sep] + piece, sep) == Split(s, sep) + [piece]
  {
    var t := s + [sep] + piece;
    if s == [] {
      assert t == [sep] + piece;
      assert t[1..] == piece;
      SplitWithout(piece, sep);
    } else {
      assert t[1..] == s[1..] + [sep] + piece;
      SplitAppend(s[1..], sep, piece);
      var rest := Split(s[1..], sep);
      if s[0] != sep {
        assert (rest + [piece])[0] == rest[0];
        assert (rest + [piece])[1..] == rest[1..] + [piece];
      }
    }
  }

  /** Joining separator-free pieces and splitting again gives the pieces back. */
  lemma {:induction false} SplitJoin(parts: seq<string>, sep: char)
    requires |parts| >= 1
    requires forall k :: 0 <= k < |parts| ==> sep !in parts[k]
    ensures Split(Join(parts, sep), sep) == parts
  {
    if |parts| == 1 {
      SplitWithout(parts[0], sep);
    } else {
      var init := parts[..|parts| - 1];
      var last := parts[|parts| - 1];
      JoinSnoc(init, last, sep);
      SplitJoin(init, sep);
      SplitAppend(Join(init, sep), sep, last);
      assert init + [last] == parts;
    }
  }

  /** Joining with one more piece at the end appends a separator and that piece. */
  lemma {:induction false} JoinSnoc(parts: seq<string>, last: string, sep: char)
    requires |parts| >= 1
    ensures Join(parts + [last], sep) == Join(parts, sep) + [sep] + last
  {
    var q := parts + [last];
    if |parts| > 1 {
      assert q[1..] == parts[1..] + [last];
      JoinSnoc(parts[1..], last, sep);
    } else {
      assert q[1..] == [last];
    }
  }

  // ---------------------------------------------------------------------------
  // JSON.stringify of a string
  // ---------------------------------------------------------------------------

  function HexDigit(d: nat): char
    requires d < 16
  {
    if d < 10 then ('0' as int + d) as char else ('a' as int + d - 10) as char
  }

  function HexValue(c: char): Option<nat> {
    if '0' <= c <= '9' then Some(c as int - '0' as int)
    else if 'a' <= c <= 'f' then Some(c as int - 'a' as int + 10)
    else if 'A' <= c <= 'F' then Some(c as int - 'A' as int + 10)
    else None
  }

  /** How `JSON.stringify` writes one character inside the quotes. */
  function EscapeChar(c: char): string {
    if c == '"' then "\\\""
    else if c == '\\' then "\\\\"
    else if c == '\U{8}' then "\\b"
    else if c == '\t' then "\\t"
    else if c == '\n' then "\\n"
    else if c == '\U{C}' then "\\f"
    else if c == '\r' then "\\r"
    else if c < ' ' then "\\u00" + [HexDigit(c as int / 16), HexDigit(c as int % 16)]
    else [c]
  }

  function EscapeBody(s: string): string {
    if s == [] then [] else EscapeChar(s[0]) + EscapeBody(s[1..])
  }

  /** `JSON.stringify(s)` for a string `s`. */
  function JsonQuote(s: string): string {
    "\"" + EscapeBody(s) + "\""
  }

  /** Reads a JSON string body back: the inverse of `EscapeBody`. */
  function UnescapeBody(t: string): Option<string>
    decreases |t|
  {
    if t == [] then Some([])
    else if t[0] == '"' then None
    else if t[0] != '\\' then
      match UnescapeBody(t[1..])
      case None => None
      case Some(rest) => Some([t[0]] + rest)
    else if |t| < 2 then None
    else
      var e := t[1];
      var simple :=
        if e == '"' then Some('"') else if e == '\\' then Some('\\') else if e == '/' then Some('/')
        else if e == 'b' then Some('\U{8}') else if e == 't' then Some('\t') else if e == 'n' then Some('\n')
        else if e == 'f' then Some('\U{C}') else if e == 'r' then Some('\r') else None;
      if simple.Some? then
        match UnescapeBody(t[2..])
        case None => None
        case Some(rest) => Some([simple.value] + rest)
      else if e == 'u' && |t| >= 6 then
        var d := [HexValue(t[2]), HexValue(t[3]), HexValue(t[4]), HexValue(t[5])];
        if d[0].None? || d[1].None? || d[2].None? || d[3].None? then None
        else
          var v := ((d[0].value * 16 + d[1].value) * 16 + d[2].value) * 16 + d[3].value;
          if 0xD800 <= v < 0xE000 then None
          else
            match UnescapeBody(t[6..])
            case None => None
            case Some(rest) => Some([v as char] + rest)
      else None
  }

  /** Reads a JSON string literal back. */
  function JsonUnquote(t: string): Option<string> {
    if |t| >= 2 && t[0] == '"' && t[|t| - 1] == '"' then UnescapeBody(t[1..|t| - 1]) else None
  }

  lemma HexDigitValue(d: nat)
    requires d < 16
    ensures HexValue(HexDigit(d)) == Some(d)
  {
  }

  lemma {:induction false} UnescapeChar(c: char, rest: string)
    ensures UnescapeBody(EscapeChar(c) + rest) ==
      match UnescapeBody(rest)
      case None => None
      case Some(r) => Some([c] + r)
  {
    if c == '"' || c == '\\' || c == '\U{8}' || c == '\t' || c == '\n' || c == '\U{C}' || c == '\r' {
      UnescapeShort(c, rest);
    } else if c < ' ' {
      UnescapeControl(c, rest);
    } else {
      var t := EscapeChar(c) + rest;
      assert t[1..] == rest;
    }
  }

  /** A two-character escape reads back as its character. */
  lemma UnescapeShort(c: char, rest: string)
    requires c == '"' || c == '\\' || c == '\U{8}' || c == '\t' || c == '\n' || c == '\U{C}' || c == '\r'
    ensures UnescapeBody(EscapeChar(c) + rest) ==
      match UnescapeBody(rest)
      case None => None
      case Some(r) => Some([c] + r)
  {
    var t := EscapeChar(c) + rest;
    assert t[2..] == rest;
  }

  /** A `\u00XX` escape of a control character reads back as that character. */
  lemma UnescapeControl(c: char, rest: string)
    requires c < ' ' && c != '\U{8}' && c != '\t' && c != '\n' && c != '\U{C}' && c != '\r'
    ensures UnescapeBody(EscapeChar(c) + rest) ==
      match UnescapeBody(rest)
      case None => None
      case Some(r) => Some([c] + r)
  {
    var t := EscapeChar(c) + rest;
    var hi, lo := c as int / 16, c as int % 16;
    HexDigitValue(0);
    HexDigitValue(hi);
    HexDigitValue(lo);
    assert t[..6] == ['\\', 'u', '0', '0', HexDigit(hi), HexDigit(lo)];
    assert t[6..] == rest;
    assert ((0 * 16 + 0) * 16 + hi) * 16 + lo == c as int;
  }

  lemma {:induction false} UnescapeEscape(s: string)
    ensures UnescapeBody(EscapeBody(s)) == Some(s)
  {
    if s != [] {
      UnescapeEscape(s[1..]);
      UnescapeChar(s[0], EscapeBody(s[1..]));
      assert [s[0]] + s[1..] == s;
    }
  }

  /** `JSON.stringify` of a string can be read back to the same string. */
  lemma JsonQuoteRoundTrip(s: string)
    ensures JsonUnquote(JsonQuote(s)) == Some(s)
  {
    var q := JsonQuote(s);
    assert q[1..|q| - 1] == EscapeBody(s);
    UnescapeEscape(s);
  }

  // ---------------------------------------------------------------------------
  // getErrorPropertyPath
  // ---------------------------------------------------------------------------

  function IsIdentifierStart(c: char): bool {
    'a' <= c <= 'z' || 'A' <= c <= 'Z' || c == '_' || c == '$'
  }

  function IsIdentifierPart(c: char): bool {
    IsIdentifierStart(c) || '0' <= c <= '9'
  }

  /** The pattern `^[a-zA-Z_$][0-9a-zA-Z_$]*$`. */
  predicate IsIdentifier(s: string) {
    |s| >= 1 && IsIdentifierStart(s[0]) && forall i :: 1 <= i < |s| ==> IsIdentifierPart(s[i])
  }

  /** The string opens the way an accessor does, with `.` or `[`. */
  predicate OpensAccessor(s: string) {
    |s| >= 1 && (s[0] == '.' || s[0] == '[')
  }

  /** One path segment in JavaScript accessor syntax. */
  function Accessor(name: string, keyword: Option<string>): string {
    if IsIdentifier(name) then "." + name
    else if keyword == Some("items") then "[" + name + "]"
    else "[" + JsonQuote(name) + "]"
  }

  /** `segments[k]`, which is `undefined` past the end. */
  function At(segments: seq<string>, k: nat): Option<string> {
    if k < |segments| then Some(segments[k]) else None
  }

  /** The accessors of the instance segments in order, the i-th one looking at schema keyword 2·i. */
  function Accessors(instance: seq<string>, schema: seq<string>): string
    decreases |instance|
  {
    if instance == [] then ""
    else
      var n := |instance| - 1;
      Accessors(instance[..n], schema) + Accessor(instance[n], At(schema, 2 * n))
  }

  /** `array.shift()` for its effect: the first element is dropped, an empty array stays empty. */
  function Shift(s: seq<string>): seq<string> {
    if s == [] then [] else s[1..]
  }

  /** `array.pop()` for its effect: the last element is dropped, an empty array stays empty. */
  function Pop(s: seq<string>): seq<string> {
    if s == [] then [] else s[..|s| - 1]
  }

  function InstanceSegments(error: AjvError): seq<string> {
    Shift(Split(error.instancePath, '/'))
  }

  function SchemaSegments(error: AjvError): seq<string> {
    Pop(Shift(Split(error.schemaPath, '/')))
  }

  /** What `getErrorPropertyPath(error, varName)` returns. */
  function ErrorPropertyPath(error: AjvError, varName: string): string {
    var instance := InstanceSegments(error);
    varName + Accessors(instance, SchemaSegments(error))
  }

  /**
   * `getErrorPropertyPath`: split both paths on `/`, drop their root
   * segments and the schema path's final keyword, then append one accessor
   * per instance segment.
   */
  method GetErrorPropertyPath(error: AjvError, varName: string) returns (path: string)
    ensures path == ErrorPropertyPath(error, varName)
  {
    var instanceSegments := Split(error.instancePath, '/');
    var schemaSegments := Split(error.schemaPath, '/');
    schemaSegments := schemaSegments[1..];
    instanceSegments := instanceSegments[1..];
    if schemaSegments != [] {
      schemaSegments := schemaSegments[..|schemaSegments| - 1];
    }
    assert instanceSegments == InstanceSegments(error);
    assert schemaSegments == SchemaSegments(error);
    path := AppendAccessors(varName, instanceSegments, schemaSegments);
  }

  /** The loop of `getErrorPropertyPath`: one accessor per instance segment, appended in order. */
  method AppendAccessors(varName: string, instanceSegments: seq<string>, schemaSegments: seq<string>) returns (path: string)
    ensures path == varName + Accessors(instanceSegments, schemaSegments)
  {
    path := varName;
    var i := 0;
    while i < |instanceSegments|
      invariant 0 <= i <= |instanceSegments|
      invariant path == varName + Accessors(instanceSegments[..i], schemaSegments)
    {
      var keyword := At(schemaSegments, 2 * i);
      var accessor := AccessorFor(instanceSegments[i], keyword);
      PathSnoc(varName, instanceSegments, schemaSegments, i);
      path := path + accessor;
      i := i + 1;
    }
    assert instanceSegments[..i] == instanceSegments;
  }

  /** The path of one more segment is the path so far followed by that segment's accessor. */
  lemma PathSnoc(varName: string, instance: seq<string>, schema: seq<string>, i: nat)
    requires i < |instance|
    ensures varName + Accessors(instance[..i + 1], schema) ==
      (varName + Accessors(instance[..i], schema)) + Accessor(instance[i], At(schema, 2 * i))
  {
    AccessorsSnoc(instance, schema, i);
  }

  /** The accessors of one more segment end with that segment's accessor. */
  lemma AccessorsSnoc(instance: seq<string>, schema: seq<string>, i: nat)
    requires i < |instance|
    ensures Accessors(instance[..i + 1], schema) == Accessors(instance[..i], schema) + Accessor(instance[i], At(schema, 2 * i))
  {
    assert instance[..i + 1][..i] == instance[..i];
  }

  /** The loop body of `getErrorPropertyPath`: dot notation, a bare index under `items`, or a quoted key. */
  method AccessorFor(name: string, keyword: Option<string>) returns (accessor: string)
    ensures accessor == Accessor(name, keyword)
  {
    if IsIdentifier(name) {
      accessor := "." + name;
    } else if keyword == Some("items") {
      accessor := "[" + name + "]";
    } else {
      accessor := "[" + JsonQuote(name) + "]";
    }
  }

  /** An empty instance path (the root value itself is wrong) gives exactly the variable name. */
  lemma RootErrorIsVarName(error: AjvError, varName: string)
    requires error.instancePath == ""
    ensures ErrorPropertyPath(error, varName) == varName
  {
    assert Split("", '/') == [""];
  }

  /**
   * One more instance segment adds exactly one accessor, for that segment and
   * the schema keyword at twice its index, after what the shorter path gave.
   */
  lemma ExtendInstancePath(error: AjvError, name: string, varName: string)
    requires '/' !in name
    ensures var longer := error.(instancePath := error.instancePath + "/" + name);
      var k := |InstanceSegments(error)|;
      ErrorPropertyPath(longer, varName) ==
        ErrorPropertyPath(error, varName) + Accessor(name, At(SchemaSegments(error), 2 * k))
  {
    var longer := error.(instancePath := error.instancePath + "/" + name);
    SplitAppend(error.instancePath, '/', name);
    var segs := Split(error.instancePath, '/');
    assert InstanceSegments(longer) == segs[1..] + [name];
    var inst := InstanceSegments(error);
    assert (inst + [name])[..|inst|] == inst;
  }

  /** An identifier segment is written in dot notation, whatever the schema says. */
  lemma IdentifierUsesDot(name: string, keyword: Option<string>)
    requires IsIdentifier(name)
    ensures Accessor(name, keyword) == "." + name
  {
  }

  /** Every accessor opens with `.` or `[`, so the path gains one per segment. */
  lemma {:induction false} AccessorsShape(instance: seq<string>, schema: seq<string>)
    ensures |Accessors(instance, schema)| >= 2 * |instance|
    ensures instance != [] ==> OpensAccessor(Accessors(instance, schema))
    decreases |instance|
  {
    if instance != [] {
      var n := |instance| - 1;
      AccessorsShape(instance[..n], schema);
      var prev := Accessors(instance[..n], schema);
      var a := Accessor(instance[n], At(schema, 2 * n));
      AccessorOpens(instance[n], At(schema, 2 * n));
      ShapeStep(prev, a, |instance|);
    }
  }

  /** A single accessor is at least two characters long and opens with `.` or `[`. */
  lemma AccessorOpens(name: string, keyword: Option<string>)
    ensures |Accessor(name, keyword)| >= 2 && OpensAccessor(Accessor(name, keyword))
  {
  }

  /** Appending an accessor to the accessors before it keeps the shape, one level deeper. */
  lemma ShapeStep(prev: string, a: string, n: nat)
    requires n >= 1 && |prev| >= 2 * (n - 1) && (prev == [] || OpensAccessor(prev))
    requires |a| >= 2 && OpensAccessor(a)
    ensures |prev + a| >= 2 * n && OpensAccessor(prev + a)
  {
    assert (prev + a)[0] == if prev == [] then a[0] else prev[0];
  }

  /** A segment made of digits only. */
  predicate IsDigits(s: string) {
    |s| >= 1 && forall i :: 0 <= i < |s| ==> '0' <= s[i] <= '9'
  }

  /** The segments of `/name`. */
  lemma SplitSingle(name: string)
    requires '/' !in name
    ensures Split("/" + name, '/') == ["", name]
  {
    SplitAppend("", '/', name);
    assert "" + ['/'] + name == "/" + name;
    assert Split("", '/') == [""];
  }

  /** The segments of `a/b`. */
  lemma SplitPair(a: string, b: string)
    requires '/' !in a && '/' !in b
    ensures Split(a + "/" + b, '/') == [a, b]
  {
    SplitAppend(a, '/', b);
    SplitWithout(a, '/');
  }

  /** The segments of `a/b/c`. */
  lemma SplitTriple(a: string, b: string, c: string)
    requires '/' !in a && '/' !in b && '/' !in c
    ensures Split(a + "/" + b + "/" + c, '/') == [a, b, c]
  {
    SplitPair(a, b);
    SplitAppend(a + "/" + b, '/', c);
    assert a + "/" + b + ['/'] + c == a + "/" + b + "/" + c;
  }

  /** The segments of the schema path `#/items/<keyword>`. */
  lemma SplitItemsPath(keyword: string)
    requires '/' !in keyword
    ensures Split("#/items/" + keyword, '/') == ["#", "items", keyword]
  {
    SplitTriple("#", "items", keyword);
    assert "#" + "/" + "items" + "/" + keyword == "#/items/" + keyword;
  }

  /**
   * An error about item `index` of an array, whose schema path runs through
   * `items` (`#/items/<keyword>`), reads `varName[index]`.
   */
  lemma ArrayItemPath(index: string, schemaPath: string, varName: string, message: string)
    requires IsDigits(index)
    requires var segs := Split(schemaPath, '/'); |segs| >= 3 && segs[1] == "items"
    ensures ErrorPropertyPath(AjvError("/" + index, schemaPath, message), varName) == varName + "[" + index + "]"
  {
    var e := AjvError("/" + index, schemaPath, message);
    DigitsAreNoIdentifier(index);
    SplitSingle(index);
    assert InstanceSegments(e) == [index];
    var schema := SchemaSegments(e);
    SchemaHead(Split(schemaPath, '/'));
    assert At(schema, 0) == Some("items");
    assert [index][..0] == [];
    assert Accessors([index], schema) == Accessors([], schema) + Accessor(index, At(schema, 0));
  }

  /** A digit string holds no `/` and is no identifier. */
  lemma DigitsAreNoIdentifier(s: string)
    requires IsDigits(s)
    ensures '/' !in s && !IsIdentifier(s)
  {
    assert !IsIdentifierStart(s[0]);
    forall i | 0 <= i < |s| ensures s[i] != '/' {
    }
  }

  /** With at least three segments, the first kept schema segment is the second one. */
  lemma SchemaHead(segs: seq<string>)
    requires |segs| >= 3
    ensures Pop(Shift(segs)) != [] && Pop(Shift(segs))[0] == segs[1]
  {
  }

  /** The string-array errors `#/items/type` and `#/items/minLength` read `varName[index]`. */
  lemma StringArrayItemPath(index: string, keyword: string, varName: string, message: string)
    requires IsDigits(index) && '/' !in keyword
    ensures ErrorPropertyPath(AjvError("/" + index, "#/items/" + keyword, message), varName) == varName + "[" + index + "]"
  {
    SplitItemsPath(keyword);
    ArrayItemPath(index, "#/items/" + keyword, varName, message);
  }

  /** An error about a property with an identifier name reads `varName.name`, whatever the schema path. */
  lemma PropertyPath(name: string, schemaPath: string, varName: string, message: string)
    requires IsIdentifier(name) && '/' !in name
    ensures ErrorPropertyPath(AjvError("/" + name, schemaPath, message), varName) == varName + "." + name
  {
    var e := AjvError("/" + name, schemaPath, message);
    SplitSingle(name);
    assert InstanceSegments(e) == [name];
    var schema := SchemaSegments(e);
    IdentifierUsesDot(name, At(schema, 0));
    assert [name][..0] == [];
    assert Accessors([name], schema) == Accessors([], schema) + Accessor(name, At(schema, 0));
  }

  /** Two identifier levels, as in `options.delimiters.left`, read `varName.outer.inner`. */
  lemma NestedPropertyPath(outer: string, inner: string, schemaPath: string, varName: string, message: string)
    requires IsIdentifier(outer) && '/' !in outer && IsIdentifier(inner) && '/' !in inner
    ensures ErrorPropertyPath(AjvError("/" + outer + "/" + inner, schemaPath, message), varName) ==
      varName + "." + outer + "." + inner
  {
    var e := AjvError("/" + outer, schemaPath, message);
    PropertyPath(outer, schemaPath, varName, message);
    SplitSingle(outer);
    ExtendInstancePath(e, inner, varName);
  }

  // ---------------------------------------------------------------------------
  // getAssertionMessage and the guards
  // ---------------------------------------------------------------------------

  /** `getAssertionMessage`: the bare message without a name, else `path: message`. */
  function AssertionMessage(error: AjvError, varName: Option<string>): (r: string)
    ensures varName.None? ==> r == error.message
    ensures varName.Some? ==> r == ErrorPropertyPath(error, varName.value) + ": " + error.message
  {
    match varName
    case None => error.message
    case Some(name) => ErrorPropertyPath(error, name) + ": " + error.message
  }

  /** `assertIsTruthyString(v, varName)`: fails, with the formatted message, exactly when `v` is no truthy string. */
  function AssertIsTruthyString(v: Value, varName: Option<string>, error: AjvError): (r: Outcome<string>)
    ensures r.Fail? <==> !IsTruthyString(v)
    ensures r.Fail? ==> r.error == AssertionMessage(error, varName)
  {
    if IsTruthyString(v) then Pass else Fail(AssertionMessage(error, varName))
  }

  /** `assertIsTruthyStringArray(v, varName)`. */
  function AssertIsTruthyStringArray(v: Value, varName: Option<string>, error: AjvError): (r: Outcome<string>)
    ensures r.Fail? <==> !IsTruthyStringArray(v)
    ensures r.Fail? ==> r.error == AssertionMessage(error, varName)
  {
    if IsTruthyStringArray(v) then Pass else Fail(AssertionMessage(error, varName))
  }

  /** `assertIsOptions(v, varName)`. */
  function AssertIsOptions(v: Value, varName: Option<string>, error: AjvError): (r: Outcome<string>)
    ensures r.Fail? <==> !IsOptions(v)
    ensures r.Fail? ==> r.error == AssertionMessage(error, varName)
  {
    if IsOptions(v) then Pass else Fail(AssertionMessage(error, varName))
  }
}
