/** The configuration source that turns the server's own command-line
    arguments, passed on as one comma-separated string, into configuration
    properties (ConfigArgsConfigSource). */
module ConfigArgs {

  import opened Wrappers
  import opened JavaStrings

  /** Separates the arguments in the raw string. */
  const ARG_SEPARATOR: char := ','
  /** Separates an argument's key from its value. */
  const KEY_VALUE_SEPARATOR: char := '='
  /** Every argument must start with this. */
  const ARG_PREFIX: string := "--"

  const SOURCE_NAME: string := "CliConfigSource"
  /** Higher than the ordinals of the default configuration sources. */
  const SOURCE_ORDINAL: int := 500

  /** What the parser takes from the rest of the server: the namespace
      prefix of every property, the mapping of a property name to the name
      it is known by, and the normalisation of keys for lookup. */
  datatype Collaborators = Collaborators(
    nsPrefix: string,
    mappedPropertyName: string -> string,
    normalizeKey: string -> string)

  datatype ParseError =
    | InvalidFormat(arg: string)   // an argument that does not start with "--"
    | InvalidKey                   // an argument whose key is blank

  /** What one argument contributes: nothing, or one value under a key. */
  datatype Step = Skip | Put(key: string, value: string)

  /** The property name for an argument key: the namespace prefix, then the
      key without its leading "--". Dashes are kept. */
  function CanonicalKey(ns: string, key: string): (r: string)
    requires StartsWith(key, ARG_PREFIX)
  {
    ns + key[|ARG_PREFIX|..]
  }

  /** One pass of the loop body over argument `arg`. */
  function ProcessToken(arg: string, ns: string): (r: Result<Step, ParseError>)
  {
    if !StartsWith(arg, ARG_PREFIX) then Failure(InvalidFormat(arg))
    else
      var keyValue := PatternSplit(arg, KEY_VALUE_SEPARATOR);
      var key := keyValue[0];
      if Trim(key) == [] then Failure(InvalidKey)
      else if |keyValue| == 1 then Success(Skip)
      else if |keyValue| == 2 then Success(Put(CanonicalKey(ns, key), keyValue[1]))
      else Success(Put(CanonicalKey(ns, key), arg[|key| + 1..]))
  }

  /** The keys one accepted argument writes its value under. */
  function StoredKeys(k: string, c: Collaborators): set<string> {
    {k, c.mappedPropertyName(k), c.normalizeKey(k)}
  }

  /** The three `put`s of an accepted argument. */
  function Store(props: map<string, string>, k: string, v: string, c: Collaborators): (r: map<string, string>)
  {
    props[k := v][c.mappedPropertyName(k) := v][c.normalizeKey(k) := v]
  }

  /** An accepted argument puts its value under its three keys and leaves
      every other entry as it was. */
  lemma StoreWrites(props: map<string, string>, k: string, v: string, c: Collaborators)
    ensures var r := Store(props, k, v, c);
      && r.Keys == props.Keys + StoredKeys(k, c)
      && (forall x :: x in StoredKeys(k, c) ==> r[x] == v)
      && (forall x :: x in props && x !in StoredKeys(k, c) ==> r[x] == props[x])
  {
  }

  function Apply(props: map<string, string>, step: Step, c: Collaborators): (r: map<string, string>) {
    match step
    case Skip => props
    case Put(k, v) => Store(props, k, v, c)
  }

  /** The arguments the loop walks through: none when the raw string is
      absent or blank, otherwise the raw string split on commas. */
  function Tokens(args: Option<string>): (r: seq<string>) {
    if args.None? || Trim(args.value) == [] then []
    else PatternSplit(args.value, ARG_SEPARATOR)
  }

  /** What each argument yields, in order. */
  function Outcomes(tokens: seq<string>, ns: string): (r: seq<Result<Step, ParseError>>)
  {
    seq(|tokens|, i requires 0 <= i < |tokens| => ProcessToken(tokens[i], ns))
  }

  /** The properties that the outcomes add to `acc`, in order, stopping at
      the first rejected argument. */
  function Fold(outcomes: seq<Result<Step, ParseError>>, c: Collaborators, acc: map<string, string>): (r: Result<map<string, string>, ParseError>)
  {
    if outcomes == [] then Success(acc)
    else if outcomes[0].Failure? then Failure(outcomes[0].error)
    else Fold(outcomes[1..], c, Apply(acc, outcomes[0].value, c))
  }

  /** What `parseArgument` returns, or the exception it throws. */
  function Parse(args: Option<string>, c: Collaborators): (r: Result<map<string, string>, ParseError>)
  {
    var tokens := Tokens(args);
    Fold(Outcomes(tokens, c.nsPrefix), c, map[])
  }

  /** The fold from argument i on: argument i's outcome, then the rest. */
  lemma FoldAt(tokens: seq<string>, ns: string, i: nat, c: Collaborators, acc: map<string, string>)
    requires i < |tokens|
    ensures var outcomes := Outcomes(tokens, ns);
      var step := ProcessToken(tokens[i], ns);
      && |outcomes| == |tokens|
      && Fold(outcomes[i..], c, acc) ==
           if step.Failure? then Failure(step.error) else Fold(outcomes[i + 1..], c, Apply(acc, step.value, c))
  {
    var outcomes := Outcomes(tokens, ns);
    assert outcomes[i..][0] == outcomes[i] == ProcessToken(tokens[i], ns);
    assert outcomes[i..][1..] == outcomes[i + 1..];
  }

  /** `parseArgument`, with the raw string that `parseArgument` reads
      through `Environment.getConfigArgs()` passed in. */
  method ParseArgument(args: Option<string>, c: Collaborators) returns (r: Result<map<string, string>, ParseError>)
    ensures r == Parse(args, c)
  {
    if args.None? || Trim(args.value) == [] {
      return Success(map[]);
    }
    var tokens := PatternSplit(args.value, ARG_SEPARATOR);
    var properties: map<string, string> := map[];
    ghost var outcomes := Outcomes(tokens, c.nsPrefix);
    ghost var goal := Parse(args, c);
    assert tokens == Tokens(args);
    assert Fold(outcomes[0..], c, properties) == goal by {
      assert outcomes[0..] == outcomes;
    }
    for i := 0 to |tokens|
      invariant Fold(outcomes[i..], c, properties) == goal
    {
      var arg := tokens[i];
      if !StartsWith(arg, ARG_PREFIX) {
        assert Fold(outcomes[i..], c, properties) == Failure(InvalidFormat(arg)) by {
          FoldAt(tokens, c.nsPrefix, i, c, properties);
        }
        return Failure(InvalidFormat(arg));
      }
      var keyValue := PatternSplit(arg, KEY_VALUE_SEPARATOR);
      assert && |keyValue| >= 1 && StartsWith(keyValue[0], ARG_PREFIX) && Trim(keyValue[0]) != []
             && (|keyValue| > 1 ==> |keyValue[0]| < |arg|) by {
        PrefixedTokenOutcome(arg, c.nsPrefix);
      }
      var key := keyValue[0];
      if Trim(key) == [] {
        // Unreachable: the key still starts with "--".
        assert false;
        return Failure(InvalidKey);
      }
      var value;
      if |keyValue| == 1 {
        assert Fold(outcomes[i + 1..], c, properties) == goal by {
          FoldAt(tokens, c.nsPrefix, i, c, properties);
          PrefixedTokenOutcome(arg, c.nsPrefix);
        }
        continue;
      } else if |keyValue| == 2 {
        value := keyValue[1];
      } else {
        value := arg[|key| + 1..];
      }
      key := c.nsPrefix + key[2..];
      ghost var stored := Apply(properties, Put(key, value), c);
      assert Fold(outcomes[i + 1..], c, stored) == goal by {
        FoldAt(tokens, c.nsPrefix, i, c, properties);
        PrefixedTokenOutcome(arg, c.nsPrefix);
        assert ProcessToken(arg, c.nsPrefix) == Success(Put(key, value));
      }
      properties := properties[key := value];
      properties := properties[c.mappedPropertyName(key) := value];
      properties := properties[c.normalizeKey(key) := value];
      assert properties == stored;
    }
    assert outcomes[|tokens|..] == [];
    return Success(properties);
  }

  // ---------------------------------------------------------------------------
  // One argument

  /** For an argument that starts with "--", the key split off at the first
      '=' starts with "--" too, so it is never blank, and the outcome depends
      only on how many parts the split gives. */
  lemma PrefixedTokenOutcome(arg: string, ns: string)
    requires StartsWith(arg, ARG_PREFIX)
    ensures var keyValue := PatternSplit(arg, KEY_VALUE_SEPARATOR);
      && |keyValue| >= 1 && StartsWith(keyValue[0], ARG_PREFIX) && Trim(keyValue[0]) != []
      && (|keyValue| > 1 ==> |keyValue[0]| < |arg|)
      && ProcessToken(arg, ns) ==
           if |keyValue| == 1 then Success(Skip)
           else if |keyValue| == 2 then Success(Put(ns + keyValue[0][2..], keyValue[1]))
           else Success(Put(ns + keyValue[0][2..], arg[|keyValue[0]| + 1..]))
  {
    assert arg[0] == arg[..2][0] && arg[1] == arg[..2][1];
    var k := IndexOf(arg, KEY_VALUE_SEPARATOR);
    assert 2 <= k;
    var key := arg[..k];
    assert key[..2] == arg[..2];
    assert key[0] == '-';
  }

  /** What one argument yields, stated without `Pattern.split`: an argument
      without "--" is rejected, naming it; otherwise the key is everything
      before the first '=' and the value everything after it, except that
      '=' characters at the very end are lost when the rest holds no other
      '=', and the argument is skipped when nothing else is left. */
  lemma TokenOutcome(arg: string, ns: string)
    ensures !StartsWith(arg, ARG_PREFIX) ==> ProcessToken(arg, ns) == Failure(InvalidFormat(arg))
    ensures StartsWith(arg, ARG_PREFIX) && KEY_VALUE_SEPARATOR !in arg ==> ProcessToken(arg, ns) == Success(Skip)
    ensures StartsWith(arg, ARG_PREFIX) && KEY_VALUE_SEPARATOR in arg ==>
      var k := IndexOf(arg, KEY_VALUE_SEPARATOR);
      var rest := arg[k + 1..];
      var t := StripTrailing(rest, KEY_VALUE_SEPARATOR);
      && 2 <= k
      && ProcessToken(arg, ns) ==
           if t == [] then Success(Skip)
           else Success(Put(ns + arg[2..k], if KEY_VALUE_SEPARATOR in t then rest else t))
  {
    if StartsWith(arg, ARG_PREFIX) {
      PrefixedTokenOutcome(arg, ns);
      var keyValue := PatternSplit(arg, KEY_VALUE_SEPARATOR);
      var key := keyValue[0];
      if KEY_VALUE_SEPARATOR in arg {
        var k := IndexOf(arg, KEY_VALUE_SEPARATOR);
        PatternSplitAtFirst(arg, KEY_VALUE_SEPARATOR);
        assert key == arg[..k];
        assert key[2..] == arg[2..k];
      }
    }
  }

  /** An argument is rejected exactly when it lacks "--", and then it is
      named in the error: a key that starts with "--" is never blank, so the
      blank-key test cannot fail. */
  lemma TokenRejected(arg: string, ns: string)
    ensures ProcessToken(arg, ns).Failure? <==> !StartsWith(arg, ARG_PREFIX)
    ensures ProcessToken(arg, ns).Failure? ==> ProcessToken(arg, ns).error == InvalidFormat(arg)
  {
    TokenOutcome(arg, ns);
  }

  /** An accepted argument holds a '=' when it writes a value. */
  lemma PutHasSeparator(arg: string, ns: string)
    requires ProcessToken(arg, ns).Success? && ProcessToken(arg, ns).value.Put?
    ensures StartsWith(arg, ARG_PREFIX) && KEY_VALUE_SEPARATOR in arg
  {
    TokenOutcome(arg, ns);
  }

  /** `--key=value` stores `value` verbatim under the namespaced key when the
      value is not empty and does not end in '=', whatever '=' it holds. */
  lemma AssignmentKeptVerbatim(key: string, value: string, ns: string)
    requires StartsWith(key, ARG_PREFIX) && KEY_VALUE_SEPARATOR !in key
    requires value != [] && value[|value| - 1] != KEY_VALUE_SEPARATOR
    ensures ProcessToken(key + [KEY_VALUE_SEPARATOR] + value, ns) == Success(Put(ns + key[2..], value))
  {
    var arg := key + [KEY_VALUE_SEPARATOR] + value;
    assert arg[..|key|] == key && arg[|key| + 1..] == value;
    assert arg[..2] == key[..2];
    IndexOfAt(arg, KEY_VALUE_SEPARATOR, |key|);
    TokenOutcome(arg, ns);
    assert arg[2..|key|] == key[2..];
  }

  /** `--key` followed by nothing but '=' characters is skipped like a bare
      flag. */
  lemma EmptyValueSkipped(key: string, equals: string, ns: string)
    requires StartsWith(key, ARG_PREFIX) && KEY_VALUE_SEPARATOR !in key
    requires forall i :: 0 <= i < |equals| ==> equals[i] == KEY_VALUE_SEPARATOR
    ensures ProcessToken(key + equals, ns) == Success(Skip)
  {
    var arg := key + equals;
    assert arg[..2] == key[..2];
    if equals != [] {
      assert arg[..|key|] == key;
      IndexOfAt(arg, KEY_VALUE_SEPARATOR, |key|);
      var rest := arg[|key| + 1..];
      assert forall i :: 0 <= i < |rest| ==> rest[i] == equals[i + 1];
      TokenOutcome(arg, ns);
    } else {
      assert arg == key;
      TokenOutcome(arg, ns);
    }
  }

  /** `--key=value=`, with a non-empty value holding no '=', loses the final
      '=': the value is split off as the second of two parts. (An empty value,
      `--key==`, is skipped instead; see `EmptyValueSkipped`.) */
  lemma LoneTrailingSeparatorLost(key: string, value: string, ns: string)
    requires StartsWith(key, ARG_PREFIX) && KEY_VALUE_SEPARATOR !in key
    requires value != [] && KEY_VALUE_SEPARATOR !in value
    ensures ProcessToken(key + [KEY_VALUE_SEPARATOR] + value + [KEY_VALUE_SEPARATOR], ns)
              == Success(Put(ns + key[2..], value))
  {
    var arg := key + [KEY_VALUE_SEPARATOR] + value + [KEY_VALUE_SEPARATOR];
    assert arg[..|key|] == key && arg[|key| + 1..] == value + [KEY_VALUE_SEPARATOR];
    assert arg[..2] == key[..2];
    IndexOfAt(arg, KEY_VALUE_SEPARATOR, |key|);
    assert value[|value| - 1] in value;
    assert (value + [KEY_VALUE_SEPARATOR])[..|value|] == value;
    assert StripTrailing(value + [KEY_VALUE_SEPARATOR], KEY_VALUE_SEPARATOR) == value;
    TokenOutcome(arg, ns);
    assert arg[2..|key|] == key[2..];
  }

  /** `--key=value` stores all of `value`, trailing '=' included, when the
      value holds a '=' before its trailing ones. */
  lemma InnerSeparatorKeepsValue(key: string, value: string, ns: string)
    requires StartsWith(key, ARG_PREFIX) && KEY_VALUE_SEPARATOR !in key
    requires KEY_VALUE_SEPARATOR in StripTrailing(value, KEY_VALUE_SEPARATOR)
    ensures ProcessToken(key + [KEY_VALUE_SEPARATOR] + value, ns) == Success(Put(ns + key[2..], value))
  {
    var arg := key + [KEY_VALUE_SEPARATOR] + value;
    assert arg[..|key|] == key && arg[|key| + 1..] == value;
    assert arg[..2] == key[..2];
    IndexOfAt(arg, KEY_VALUE_SEPARATOR, |key|);
    TokenOutcome(arg, ns);
    assert arg[2..|key|] == key[2..];
  }

  /** `--=value`, with a non-empty value not ending in '=', is accepted: its
      key is empty once the "--" is removed, and the value is stored under
      the namespace prefix alone. */
  lemma EmptyKeyAccepted(value: string, ns: string)
    requires value != [] && value[|value| - 1] != KEY_VALUE_SEPARATOR
    ensures ProcessToken(ARG_PREFIX + [KEY_VALUE_SEPARATOR] + value, ns) == Success(Put(ns, value))
  {
    AssignmentKeptVerbatim(ARG_PREFIX, value, ns);
    assert ns + ARG_PREFIX[2..] == ns;
  }

  // ---------------------------------------------------------------------------
  // The whole argument string

  /** Outcome i is the first failure. */
  ghost predicate FirstFailure(outcomes: seq<Result<Step, ParseError>>, i: int) {
    && 0 <= i < |outcomes|
    && outcomes[i].Failure?
    && forall j :: 0 <= j < i ==> outcomes[j].Success?
  }

  lemma {:induction false} FoldFailure(outcomes: seq<Result<Step, ParseError>>, c: Collaborators, acc: map<string, string>)
    ensures Fold(outcomes, c, acc).Failure? <==> exists i :: 0 <= i < |outcomes| && outcomes[i].Failure?
    ensures Fold(outcomes, c, acc).Failure? ==>
      exists i :: FirstFailure(outcomes, i) && Fold(outcomes, c, acc).error == outcomes[i].error
  {
    if outcomes != [] {
      if outcomes[0].Success? {
        var rest := outcomes[1..];
        var acc' := Apply(acc, outcomes[0].value, c);
        FoldFailure(rest, c, acc');
        if Fold(outcomes, c, acc).Failure? {
          var j :| FirstFailure(rest, j) && Fold(rest, c, acc').error == rest[j].error;
          assert FirstFailure(outcomes, j + 1);
        }
        forall i | 0 <= i < |outcomes| && outcomes[i].Failure?
          ensures rest[i - 1].Failure?
        {
        }
      } else {
        assert FirstFailure(outcomes, 0);
      }
    }
  }

  /** Token i is the first one without the "--" prefix. */
  ghost predicate FirstMalformed(tokens: seq<string>, i: int) {
    && 0 <= i < |tokens|
    && !StartsWith(tokens[i], ARG_PREFIX)
    && forall j :: 0 <= j < i ==> StartsWith(tokens[j], ARG_PREFIX)
  }

  /** Parsing fails exactly when some argument lacks the "--" prefix (an
      empty argument between two commas included), and then it fails naming
      the first such argument; the blank-key error never occurs. */
  lemma ParseFailure(args: Option<string>, c: Collaborators)
    ensures Parse(args, c).Failure? <==>
      exists i :: 0 <= i < |Tokens(args)| && !StartsWith(Tokens(args)[i], ARG_PREFIX)
    ensures Parse(args, c).Failure? ==>
      exists i :: FirstMalformed(Tokens(args), i) && Parse(args, c).error == InvalidFormat(Tokens(args)[i])
    ensures Parse(args, c) != Failure(InvalidKey)
  {
    var tokens := Tokens(args);
    var outcomes := Outcomes(tokens, c.nsPrefix);
    forall i | 0 <= i < |tokens|
      ensures outcomes[i].Failure? <==> !StartsWith(tokens[i], ARG_PREFIX)
      ensures outcomes[i].Failure? ==> outcomes[i].error == InvalidFormat(tokens[i])
    {
      TokenRejected(tokens[i], c.nsPrefix);
    }
    FoldFailure(outcomes, c, map[]);
    if Parse(args, c).Failure? {
      var i :| FirstFailure(outcomes, i) && Parse(args, c).error == outcomes[i].error;
      assert FirstMalformed(tokens, i);
    }
  }

  /** An absent or blank argument string gives no properties and no error. */
  lemma ParseBlank(args: Option<string>, c: Collaborators)
    requires args.None? || IsBlank(args.value)
    ensures Parse(args, c) == Success(map[])
  {
  }

  lemma BlankExamples(c: Collaborators)
    ensures Parse(None, c) == Success(map[])
    ensures Parse(Some(""), c) == Success(map[])
    ensures Parse(Some(" \t "), c) == Success(map[])
  {
    ParseBlank(Some(" \t "), c);
  }

  /** An empty argument between two commas fails the prefix test, as long
      as something other than a comma follows it. */
  lemma EmptyArgumentRejected(before: string, after: string, c: Collaborators)
    requires exists i :: 0 <= i < |after| && after[i] != ARG_SEPARATOR
    ensures Parse(Some(before + [ARG_SEPARATOR] + [ARG_SEPARATOR] + after), c).Failure?
  {
    var s := before + [ARG_SEPARATOR] + [ARG_SEPARATOR] + after;
    assert s[|before|] == ARG_SEPARATOR;
    assert !IsBlank(s);
    PatternSplitEmptyField(before, after, ARG_SEPARATOR);
    var tokens := Tokens(Some(s));
    var i :| 0 <= i < |tokens| && tokens[i] == [];
    ParseFailure(Some(s), c);
  }

  /** A comma at the end of a non-blank argument string adds no argument. */
  lemma TrailingSeparatorIgnored(s: string, c: Collaborators)
    requires !IsBlank(s)
    ensures Parse(Some(s + [ARG_SEPARATOR]), c) == Parse(Some(s), c)
  {
    assert (s + [ARG_SEPARATOR])[|s|] == ARG_SEPARATOR;
    assert !IsBlank(s + [ARG_SEPARATOR]);
    PatternSplitTrailingDelimiter(s, ARG_SEPARATOR);
  }

  /** An argument with this outcome writes key x. */
  ghost predicate Writes(outcome: Result<Step, ParseError>, c: Collaborators, x: string) {
    outcome.Success? && outcome.value.Put? && x in StoredKeys(outcome.value.key, c)
  }

  /** Outcome i is the last one that writes key x. */
  ghost predicate LastWrite(outcomes: seq<Result<Step, ParseError>>, c: Collaborators, x: string, i: int) {
    && 0 <= i < |outcomes|
    && Writes(outcomes[i], c, x)
    && forall j :: i < j < |outcomes| ==> !Writes(outcomes[j], c, x)
  }

  lemma {:induction false} FoldKeys(outcomes: seq<Result<Step, ParseError>>, c: Collaborators, acc: map<string, string>, x: string)
    requires Fold(outcomes, c, acc).Success?
    ensures x in Fold(outcomes, c, acc).value <==> x in acc || exists i :: 0 <= i < |outcomes| && Writes(outcomes[i], c, x)
  {
    if outcomes != [] {
      var acc' := Apply(acc, outcomes[0].value, c);
      var rest := outcomes[1..];
      FoldKeys(rest, c, acc', x);
      if outcomes[0].value.Put? {
        StoreWrites(acc, outcomes[0].value.key, outcomes[0].value.value, c);
      }
      assert x in acc' <==> x in acc || Writes(outcomes[0], c, x);
      forall i | 1 <= i < |outcomes| && Writes(outcomes[i], c, x)
        ensures Writes(rest[i - 1], c, x)
      {
      }
    }
  }

  lemma {:induction false} FoldValues(outcomes: seq<Result<Step, ParseError>>, c: Collaborators, acc: map<string, string>, x: string)
    requires Fold(outcomes, c, acc).Success?
    requires x in Fold(outcomes, c, acc).value
    ensures var m := Fold(outcomes, c, acc).value;
      || (exists i :: LastWrite(outcomes, c, x, i) && m[x] == outcomes[i].value.value)
      || ((forall i :: 0 <= i < |outcomes| ==> !Writes(outcomes[i], c, x)) && x in acc && m[x] == acc[x])
  {
    if outcomes == [] {
      return;
    }
    var m := Fold(outcomes, c, acc).value;
    var acc' := Apply(acc, outcomes[0].value, c);
    var rest := outcomes[1..];
    FoldValues(rest, c, acc', x);
    if outcomes[0].value.Put? {
      StoreWrites(acc, outcomes[0].value.key, outcomes[0].value.value, c);
    }
    if i' :| LastWrite(rest, c, x, i') && m[x] == rest[i'].value.value {
      assert LastWrite(outcomes, c, x, i' + 1);
    } else if Writes(outcomes[0], c, x) {
      assert LastWrite(outcomes, c, x, 0);
    } else {
      assert x in acc;
    }
  }

  /** The parsed properties: a key is present exactly when some argument
      writes it, every value comes from the LAST argument that writes its
      key, and that argument holds a '='. */
  lemma ParseContents(args: Option<string>, c: Collaborators, x: string)
    requires Parse(args, c).Success?
    ensures var tokens := Tokens(args); var outcomes := Outcomes(tokens, c.nsPrefix); var m := Parse(args, c).value;
      && (x in m <==> exists i :: 0 <= i < |tokens| && Writes(outcomes[i], c, x))
      && (x in m ==> exists i :: LastWrite(outcomes, c, x, i)
                            && m[x] == outcomes[i].value.value
                            && KEY_VALUE_SEPARATOR in tokens[i])
  {
    var tokens := Tokens(args);
    var outcomes := Outcomes(tokens, c.nsPrefix);
    FoldKeys(outcomes, c, map[], x);
    var m := Parse(args, c).value;
    if x in m {
      FoldValues(outcomes, c, map[], x);
      var i :| LastWrite(outcomes, c, x, i) && m[x] == outcomes[i].value.value;
      PutHasSeparator(tokens[i], c.nsPrefix);
    }
  }

  // ---------------------------------------------------------------------------
  // The configuration source

  /** ConfigArgsConfigSource once built: the parsed properties, its name and
      its ordinal; nothing changes after construction. */
  datatype ConfigArgsConfigSource = ConfigArgsConfigSource(properties: map<string, string>, name: string, ordinal: int)
  {
    /** `getValue`: the value stored under the one dash-free key that equals
        the queried name up to '-' versus '.', if there is one. */
    function GetValue(propertyName: string): (r: Option<string>)
      ensures r.Some? ==> exists k :: k in properties && DashFree(k) && SameUpToDashes(k, propertyName) && r.value == properties[k]
      ensures r.None? ==> forall k :: k in properties && DashFree(k) ==> !SameUpToDashes(k, propertyName)
    {
      var key := Replace(propertyName, '-', '.');
      assert SameUpToDashes(key, propertyName);
      if key in properties then Some(properties[key])
      else
        assert forall k :: DashFree(k) && SameUpToDashes(k, propertyName) ==> k == key by {
          forall k | DashFree(k) && SameUpToDashes(k, propertyName) ensures k == key {
            assert forall i :: 0 <= i < |k| ==> k[i] == key[i];
          }
        }
        None
    }
  }

  predicate DashFree(s: string) {
    '-' !in s
  }

  predicate IsDashOrDot(ch: char) {
    ch == '-' || ch == '.'
  }

  /** Two names that differ at most in '-' against '.'. */
  predicate SameUpToDashes(a: string, b: string) {
    |a| == |b| && forall i :: 0 <= i < |a| ==> a[i] == b[i] || (IsDashOrDot(a[i]) && IsDashOrDot(b[i]))
  }

  /** Names that differ only in '-' against '.' get the same answer. */
  lemma GetValueIgnoresDashes(src: ConfigArgsConfigSource, a: string, b: string)
    requires SameUpToDashes(a, b)
    ensures src.GetValue(a) == src.GetValue(b)
  {
    assert Replace(a, '-', '.') == Replace(b, '-', '.');
  }

  /** A stored key that holds a '-' is never answered: adding or changing it
      changes no lookup. */
  lemma DashedKeyUnreachable(src: ConfigArgsConfigSource, k: string, v: string, propertyName: string)
    requires !DashFree(k)
    ensures src.(properties := src.properties[k := v]).GetValue(propertyName) == src.GetValue(propertyName)
  {
    assert DashFree(Replace(propertyName, '-', '.'));
  }

  /** What a lookup on the built source answers: the value of the last
      argument that wrote a dash-free key equal to the queried name up to
      '-' versus '.', and nothing exactly when no argument wrote such a key. */
  lemma LookupAfterParse(args: Option<string>, c: Collaborators, propertyName: string)
    requires Parse(args, c).Success?
    ensures var src := ConfigArgsConfigSource(Parse(args, c).value, SOURCE_NAME, SOURCE_ORDINAL);
      var outcomes := Outcomes(Tokens(args), c.nsPrefix);
      && (src.GetValue(propertyName).Some? ==>
            exists i, k :: LastWrite(outcomes, c, k, i) && DashFree(k) && SameUpToDashes(k, propertyName)
                        && src.GetValue(propertyName).value == outcomes[i].value.value)
      && (src.GetValue(propertyName).None? <==>
            forall i, k :: 0 <= i < |outcomes| && Writes(outcomes[i], c, k) && DashFree(k) ==> !SameUpToDashes(k, propertyName))
  {
    var src := ConfigArgsConfigSource(Parse(args, c).value, SOURCE_NAME, SOURCE_ORDINAL);
    var outcomes := Outcomes(Tokens(args), c.nsPrefix);
    if src.GetValue(propertyName).Some? {
      var k :| k in src.properties && DashFree(k) && SameUpToDashes(k, propertyName)
               && src.GetValue(propertyName).value == src.properties[k];
      ParseContents(args, c, k);
    } else {
      forall i, k | 0 <= i < |outcomes| && Writes(outcomes[i], c, k) && DashFree(k)
        ensures !SameUpToDashes(k, propertyName)
      {
        ParseContents(args, c, k);
      }
    }
  }

  /** The constructor: parse the arguments, then register under name
      "CliConfigSource" with ordinal 500; a parse error aborts construction. */
  method Construct(args: Option<string>, c: Collaborators) returns (r: Result<ConfigArgsConfigSource, ParseError>)
    ensures Parse(args, c).Failure? ==> r == Failure(Parse(args, c).error)
    ensures Parse(args, c).Success? ==> r == Success(ConfigArgsConfigSource(Parse(args, c).value, SOURCE_NAME, SOURCE_ORDINAL))
  {
    var properties := ParseArgument(args, c);
    if properties.Failure? {
      return Failure(properties.error);
    }
    return Success(ConfigArgsConfigSource(properties.value, SOURCE_NAME, SOURCE_ORDINAL));
  }
}
