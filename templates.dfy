/**
 * The compiled templates of `src/compilation.ts`. A template is a list of
 * literal text and slots; each slot is a `mix('<id>')` call, written either
 * as an interpolation or as an escape (whose value is HTML-escaped).
 */
module Templates {
  import opened Wrappers
  import opened TemplateFuncs

  datatype Segment =
    | Lit(text: string)
    | Interp(id: string)   // `{{ mix('<id>') }}` with the default delimiters
    | Escape(id: string)   // `{{! mix('<id>') !}}`

  type Template = seq<Segment>

  /** The id a segment passes to `mix`, if any. */
  function SegmentRefs(s: Segment): seq<string> {
    match s
    case Lit(_) => []
    case Interp(id) => [id]
    case Escape(id) => [id]
  }

  /** The ids a template passes to `mix`, in evaluation order. */
  function Refs(t: Template): (r: seq<string>)
    ensures |r| <= |t|
  {
    if t == [] then [] else SegmentRefs(t[0]) + Refs(t[1..])
  }

  /** Refs of a concatenation are the refs of the parts, in order. */
  lemma {:induction false} RefsAppend(t1: Template, t2: Template)
    ensures Refs(t1 + t2) == Refs(t1) + Refs(t2)
  {
    if t1 == [] {
      assert t1 + t2 == t2;
    } else {
      var t := t1 + t2;
      assert t[0] == t1[0];
      assert t[1..] == t1[1..] + t2;
      RefsAppend(t1[1..], t2);
      var h := SegmentRefs(t1[0]);
      calc {
        Refs(t);
        h + Refs(t1[1..] + t2);
        h + (Refs(t1[1..]) + Refs(t2));
        (h + Refs(t1[1..])) + Refs(t2);
        Refs(t1) + Refs(t2);
      }
    }
  }

  /** Every slot of the template is among its refs, and nothing else is. */
  lemma {:induction false} RefsMembers(t: Template, id: string)
    ensures id in Refs(t) <==> exists k :: 0 <= k < |t| && (t[k] == Interp(id) || t[k] == Escape(id))
  {
    if t != [] {
      RefsMembers(t[1..], id);
      if id in Refs(t[1..]) {
        var k :| 0 <= k < |t[1..]| && (t[1..][k] == Interp(id) || t[1..][k] == Escape(id));
        assert t[k + 1] == t[1..][k];
      }
      forall k | 1 <= k < |t| && (t[k] == Interp(id) || t[k] == Escape(id)) ensures id in Refs(t[1..]) {
        assert t[1..][k - 1] == t[k];
      }
    }
  }

  // ---------------------------------------------------------------------------
  // lodash escape / unescape
  // ---------------------------------------------------------------------------

  function EscapeHtmlChar(c: char): string {
    if c == '&' then "&amp;"
    else if c == '<' then "&lt;"
    else if c == '>' then "&gt;"
    else if c == '"' then "&quot;"
    else if c == '\'' then "&#39;"
    else [c]
  }

  /** lodash `escape`: the five HTML-significant characters become entities. */
  function HtmlEscape(s: string): string {
    if s == [] then [] else EscapeHtmlChar(s[0]) + HtmlEscape(s[1..])
  }

  /** lodash `unescape`: the five entities become characters again, left to right. */
  function HtmlUnescape(s: string): string
    decreases |s|
  {
    if s == [] then []
    else if |s| >= 5 && s[..5] == "&amp;" then "&" + HtmlUnescape(s[5..])
    else if |s| >= 4 && s[..4] == "&lt;" then "<" + HtmlUnescape(s[4..])
    else if |s| >= 4 && s[..4] == "&gt;" then ">" + HtmlUnescape(s[4..])
    else if |s| >= 6 && s[..6] == "&quot;" then "\"" + HtmlUnescape(s[6..])
    else if |s| >= 5 && s[..5] == "&#39;" then "'" + HtmlUnescape(s[5..])
    else [s[0]] + HtmlUnescape(s[1..])
  }

  lemma UnescapeHtmlChar(c: char, rest: string)
    ensures HtmlUnescape(EscapeHtmlChar(c) + rest) == [c] + HtmlUnescape(rest)
  {
    var e := EscapeHtmlChar(c);
    if c == '&' {
      assert e == "&amp;";
      SplitAfter(e, rest);
    } else if c == '<' {
      assert e == "&lt;";
      SplitAfter(e, rest);
      assert (e + rest)[1] == 'l';
    } else if c == '>' {
      assert e == "&gt;";
      SplitAfter(e, rest);
      assert (e + rest)[1] == 'g';
    } else if c == '"' {
      assert e == "&quot;";
      SplitAfter(e, rest);
      assert (e + rest)[1] == 'q';
    } else if c == '\'' {
      assert e == "&#39;";
      SplitAfter(e, rest);
      assert (e + rest)[1] == '#';
    } else {
      UnescapePlain(c, rest);
    }
  }

  /** The text after an entity is what follows it. */
  lemma SplitAfter(e: string, rest: string)
    ensures (e + rest)[..|e|] == e && (e + rest)[|e|..] == rest
  {
  }

  /** A character other than `&` opens no entity and is kept as it is. */
  lemma UnescapePlain(c: char, rest: string)
    requires c != '&'
    ensures HtmlUnescape([c] + rest) == [c] + HtmlUnescape(rest)
  {
    var t := [c] + rest;
    assert t[0] == c && t[1..] == rest;
  }

  /** Escaping loses nothing: unescaping gives the text back. */
  lemma {:induction false} HtmlRoundTrip(s: string)
    ensures HtmlUnescape(HtmlEscape(s)) == s
  {
    if s != [] {
      UnescapeHtmlChar(s[0], HtmlEscape(s[1..]));
      HtmlRoundTrip(s[1..]);
      assert [s[0]] + s[1..] == s;
    }
  }

  /** Escaped text holds none of `<`, `>`, `"` and `'`. */
  lemma {:induction false} HtmlEscapeSafe(s: string)
    ensures forall c :: c in HtmlEscape(s) ==> c != '<' && c != '>' && c != '"' && c != '\''
  {
    if s != [] {
      HtmlEscapeSafe(s[1..]);
    }
  }

  /** Escaping distributes over concatenation. */
  lemma {:induction false} HtmlEscapeAppend(s1: string, s2: string)
    ensures HtmlEscape(s1 + s2) == HtmlEscape(s1) + HtmlEscape(s2)
  {
    if s1 == [] {
      assert s1 + s2 == s2;
    } else {
      var s := s1 + s2;
      assert s[0] == s1[0];
      assert s[1..] == s1[1..] + s2;
      HtmlEscapeAppend(s1[1..], s2);
    }
  }

  /** The name of the test entry `<c>` is written with entities by an escape slot. */
  lemma EscapeAngleBrackets()
    ensures HtmlEscape("<c>") == "&lt;c&gt;"
  {
    assert HtmlEscape(">") == "&gt;";
    assert HtmlEscape("c>") == "c&gt;";
  }

  // ---------------------------------------------------------------------------
  // Rendering with the real resolver
  // ---------------------------------------------------------------------------

  /** The text one segment contributes, or the error its `mix` call throws. */
  function RenderSegment(s: Segment, ctx: MixContext): Result<string, string> {
    match s
    case Lit(text) => Ok(text)
    case Interp(id) => Mix(id, ctx)
    case Escape(id) =>
      match Mix(id, ctx)
      case Ok(v) => Ok(HtmlEscape(v))
      case Err(e) => Err(e)
  }

  /**
   * `render({mix})`: the segments' texts concatenated in order; the first
   * failing `mix` call aborts the render with its error.
   */
  function Render(t: Template, ctx: MixContext): Result<string, string> {
    if t == [] then Ok("")
    else
      match RenderSegment(t[0], ctx)
      case Err(e) => Err(e)
      case Ok(head) =>
        match Render(t[1..], ctx)
        case Err(e) => Err(e)
        case Ok(tail) => Ok(head + tail)
  }

  /** A render succeeds exactly when every referenced id is in the manifest. */
  lemma {:induction false} RenderOkIff(t: Template, ctx: MixContext)
    ensures Render(t, ctx).Ok? <==> forall id :: id in Refs(t) ==> id in ctx.manifest
  {
    if t != [] {
      RenderOkIff(t[1..], ctx);
    }
  }

  /** `refs[k]` is the first of `refs` missing from the manifest. */
  ghost predicate FirstMissing(refs: seq<string>, manifest: map<string, string>, k: nat) {
    k < |refs| && refs[k] !in manifest && forall j :: 0 <= j < k ==> refs[j] in manifest
  }

  /** A failed render reports the first referenced id that is missing from the manifest. */
  lemma {:induction false} RenderFailsOnFirstMissing(t: Template, ctx: MixContext) returns (k: nat)
    requires Render(t, ctx).Err?
    ensures FirstMissing(Refs(t), ctx.manifest, k)
    ensures Render(t, ctx).error == MissingFileMessage(Refs(t)[k])
    decreases |t|, 1
  {
    var r := Refs(t);
    match t[0]
    case Lit(_) =>
      k := RenderFailsOnFirstMissing(t[1..], ctx);
      assert r == Refs(t[1..]);
    case Interp(id) =>
      if id !in ctx.manifest {
        k := 0;
        assert r[0] == id;
      } else {
        k := RefsShift(t, id, ctx);
      }
    case Escape(id) =>
      if id !in ctx.manifest {
        k := 0;
        assert r[0] == id;
      } else {
        k := RefsShift(t, id, ctx);
      }
  }

  /** The inductive step of `RenderFailsOnFirstMissing` past a slot that resolves. */
  lemma {:induction false} RefsShift(t: Template, id: string, ctx: MixContext) returns (k: nat)
    requires t != [] && (t[0] == Interp(id) || t[0] == Escape(id)) && id in ctx.manifest
    requires Render(t, ctx).Err?
    ensures FirstMissing(Refs(t), ctx.manifest, k)
    ensures Render(t, ctx).error == MissingFileMessage(Refs(t)[k])
    decreases |t|, 0
  {
    ShiftedRender(t, id, ctx);
    var m := RenderFailsOnFirstMissing(t[1..], ctx);
    FirstMissingShift(id, Refs(t[1..]), ctx.manifest, m);
    k := m + 1;
  }

  /** Past a slot that resolves, the refs lose that id and the render fails as the rest does. */
  lemma ShiftedRender(t: Template, id: string, ctx: MixContext)
    requires t != [] && (t[0] == Interp(id) || t[0] == Escape(id)) && id in ctx.manifest
    requires Render(t, ctx).Err?
    ensures Refs(t) == [id] + Refs(t[1..])
    ensures Render(t[1..], ctx).Err? && Render(t, ctx).error == Render(t[1..], ctx).error
  {
    assert RenderSegment(t[0], ctx).Ok?;
  }

  /** A present id in front moves the first missing one up by one. */
  lemma FirstMissingShift(id: string, rest: seq<string>, manifest: map<string, string>, m: nat)
    requires id in manifest && FirstMissing(rest, manifest, m)
    ensures FirstMissing([id] + rest, manifest, m + 1) && ([id] + rest)[m + 1] == rest[m]
  {
    var r := [id] + rest;
    forall j | 0 <= j < m + 1 ensures r[j] in manifest {
      if j > 0 {
        assert r[j] == rest[j - 1];
      }
    }
  }

  /** Two contexts that resolve every referenced id alike render the template alike. */
  lemma {:induction false} RenderAgree(t: Template, c1: MixContext, c2: MixContext)
    requires forall id :: id in Refs(t) ==> Mix(id, c1) == Mix(id, c2)
    ensures Render(t, c1) == Render(t, c2)
  {
    if t != [] {
      RenderAgree(t[1..], c1, c2);
    }
  }

  /** Rendering a concatenation renders the parts and joins them; a failure in the first part wins. */
  lemma {:induction false} RenderAppend(t1: Template, t2: Template, ctx: MixContext)
    ensures Render(t1 + t2, ctx) ==
      match Render(t1, ctx)
      case Err(e) => Err(e)
      case Ok(a) =>
        match Render(t2, ctx)
        case Err(e) => Err(e)
        case Ok(b) => Ok(a + b)
  {
    if t1 != [] {
      assert (t1 + t2)[1..] == t1[1..] + t2;
      assert (t1 + t2)[0] == t1[0];
      RenderAppend(t1[1..], t2, ctx);
      match RenderSegment(t1[0], ctx)
      case Err(_) =>
      case Ok(h) =>
        match Render(t1[1..], ctx)
        case Err(_) =>
        case Ok(a) =>
          match Render(t2, ctx)
          case Err(_) =>
          case Ok(b) =>
            assert h + (a + b) == (h + a) + b;
    } else {
      assert t1 + t2 == t2;
      match Render(t2, ctx)
      case Err(_) =>
      case Ok(b) => assert "" + b == b;
    }
  }
}
