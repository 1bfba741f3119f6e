/**
 * The plugin object of `src/index.ts`: the raw entries registered so far
 * and the default options later registrations start from.
 */
module ManifestPathsPlugin {
  import opened Wrappers
  import opened Options
  import opened Helpers
  import opened Validation

  /**
   * The error record the validator reports for a value that fails one of
   * the three schemas. The validator itself is not modelled.
   */
  datatype Reporter = Reporter(
    truthyString: Value -> AjvError,
    truthyStringArray: Value -> AjvError,
    options: Value -> AjvError)

  /** The options a value accepted by the options schema stands for. */
  function ToUserOptions(v: Value): UserOptions
    requires IsOptions(v)
  {
    var delimiters :=
      if "delimiters" in v.fields then
        var d := v.fields["delimiters"].fields;
        Some(PartialDelimiters(
          if "left" in d then Some(d["left"].s) else None,
          if "right" in d then Some(d["right"].s) else None))
      else None;
    UserOptions(delimiters, if "flatten" in v.fields then Some(v.fields["flatten"].b) else None)
  }

  /**
   * Merging accepted options into a base: each of the three fields takes
   * the value given for it, and keeps the base's value where none is given.
   */
  lemma MergeGiven(base: FullOptions, v: Value)
    requires IsOptions(v)
    ensures var r := Merge(base, ToUserOptions(v));
      var d := if "delimiters" in v.fields then v.fields["delimiters"].fields else map[];
      r.delimiters.left == (if "left" in d then d["left"].s else base.delimiters.left) &&
      r.delimiters.right == (if "right" in d then d["right"].s else base.delimiters.right) &&
      r.flatten == (if "flatten" in v.fields then v.fields["flatten"].b else base.flatten)
  {
  }

  /** The checks `register(from, to, options)` makes, in order; the first failure is reported. */
  function RegisterCheck(from: Value, to: Value, options: Option<Value>, report: Reporter): (r: Outcome<string>)
    ensures r.Pass? <==>
      (if from.Arr? then IsTruthyStringArray(from) else IsTruthyString(from)) &&
      IsTruthyString(to) && (options.Some? ==> IsOptions(options.value))
    ensures !from.Arr? && !IsTruthyString(from) ==>
      r == Fail(AssertionMessage(report.truthyString(from), Some("from")))
    ensures from.Arr? && !IsTruthyStringArray(from) ==>
      r == Fail(AssertionMessage(report.truthyStringArray(from), Some("from")))
  {
    var fromCheck :=
      if from.Arr? then AssertIsTruthyStringArray(from, Some("from"), report.truthyStringArray(from))
      else AssertIsTruthyString(from, Some("from"), report.truthyString(from));
    if fromCheck.Fail? then fromCheck
    else
      var toCheck := AssertIsTruthyString(to, Some("to"), report.truthyString(to));
      if toCheck.Fail? then toCheck
      else if options.Some? then AssertIsOptions(options.value, Some("options"), report.options(options.value))
      else Pass
  }

  /** `Array.isArray(from) ? from : [from]`, for a `from` the checks accepted. */
  function FromStrings(from: Value): (r: seq<string>)
    requires if from.Arr? then IsTruthyStringArray(from) else IsTruthyString(from)
    ensures from.Arr? ==> |r| == |from.items| && forall k :: 0 <= k < |r| ==> from.items[k] == Str(r[k])
    ensures !from.Arr? ==> r == [from.s]
    ensures forall k :: 0 <= k < |r| ==> r[k] != []
  {
    if from.Arr? then seq(|from.items|, k requires 0 <= k < |from.items| => from.items[k].s)
    else [from.s]
  }

  /** A single string is registered as the list holding just that string. */
  lemma SingleStringAsList(s: string)
    requires s != []
    ensures FromStrings(Str(s)) == FromStrings(Arr([Str(s)]))
  {
  }

  /** `fromArr.map(from_str => ({from: from_str, to, options: fullOptions}))`. */
  function NewRawEntries(froms: seq<string>, to: string, options: FullOptions): (r: seq<RawEntry>)
    ensures |r| == |froms|
    ensures forall k :: 0 <= k < |r| ==> r[k].from == froms[k] && r[k].to == to && r[k].options == options
  {
    seq(|froms|, k requires 0 <= k < |froms| => RawEntry(froms[k], to, options))
  }

  class ManifestPaths {
    var rawEntries: seq<RawEntry>
    var defaultOptions: FullOptions

    constructor ()
      ensures rawEntries == [] && defaultOptions == DefaultOptions
    {
      rawEntries := [];
      defaultOptions := DefaultOptions;
    }

    /** The name the plugin is registered under with laravel-mix. */
    function Name(): (r: string)
    {
      "manifestPaths"
    }

    /**
     * `setDefaultOptions(options)`: the options are checked first; accepted
     * options are merged into the defaults. Registered entries keep the
     * options they were given.
     */
    method SetDefaultOptions(options: Value, report: Reporter) returns (r: Outcome<string>)
      modifies this
      ensures r == AssertIsOptions(options, Some("options"), report.options(options))
      ensures r.Pass? ==> defaultOptions == Merge(old(defaultOptions), ToUserOptions(options))
      ensures r.Fail? ==> defaultOptions == old(defaultOptions)
      ensures rawEntries == old(rawEntries)
    {
      r := AssertIsOptions(options, Some("options"), report.options(options));
      if r.Pass? {
        defaultOptions := Merge(defaultOptions, ToUserOptions(options));
      }
    }

    /**
     * `register(from, to, options)`: after the checks pass, one raw entry per
     * `from` string is appended, in order, all with the same options: the
     * defaults merged with the given options. A failed check changes nothing.
     */
    method Register(from: Value, to: Value, options: Option<Value>, report: Reporter) returns (r: Outcome<string>)
      modifies this
      ensures r == RegisterCheck(from, to, options, report)
      ensures defaultOptions == old(defaultOptions)
      ensures r.Fail? ==> rawEntries == old(rawEntries)
      ensures r.Pass? ==>
        var full := Merge(defaultOptions, if options.Some? then ToUserOptions(options.value) else NoOptions);
        rawEntries == old(rawEntries) + NewRawEntries(FromStrings(from), to.s, full)
    {
      r := RegisterCheck(from, to, options, report);
      if r.Fail? {
        return;
      }
      var user := if options.Some? then ToUserOptions(options.value) else NoOptions;
      var full := Merge(defaultOptions, user);
      rawEntries := rawEntries + NewRawEntries(FromStrings(from), to.s, full);
    }
  }

  /**
   * Two registrations around a change of the defaults: the first call's
   * entries keep the old defaults, the second call's get the new ones.
   */
  method DefaultsApplyLater(s1: string, s2: string, to: string, v: Value, report: Reporter)
    returns (entries: seq<RawEntry>, before: FullOptions, after: FullOptions)
    requires s1 != [] && s2 != [] && to != [] && IsOptions(v)
    ensures |entries| == 2
    ensures entries[0] == RawEntry(s1, to, before) && entries[1] == RawEntry(s2, to, after)
    ensures before == DefaultOptions && after == Merge(DefaultOptions, ToUserOptions(v))
  {
    var plugin := new ManifestPaths();
    before := plugin.defaultOptions;
    var r1 := plugin.Register(Str(s1), Str(to), None, report);
    var r2 := plugin.SetDefaultOptions(v, report);
    after := plugin.defaultOptions;
    MergeNothing(before);
    var r3 := plugin.Register(Str(s2), Str(to), None, report);
    MergeNothing(after);
    entries := plugin.rawEntries;
  }
}
