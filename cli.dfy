/**
 * The pure pieces of the `datafs` command line: turning the extra `--key value` arguments
 * into a dict, the `configure` command's merge-and-check, and the `list` command's
 * prefix filter over archive names.
 */
module Cli {
  import opened Values

  /** `arg[2:]`: the option name with its two leading characters dropped (slicing never fails). */
  function OptionName(arg: string): (r: string)
    ensures |arg| >= 2 ==> arg == arg[..2] + r
    ensures |arg| < 2 ==> r == ""
  {
    if |arg| >= 2 then arg[2..] else ""
  }

  /** `--name` rendered back from an option name: OptionName undoes it. */
  lemma OptionNameOfFlag(name: string)
    ensures OptionName("--" + name) == name
  {
    assert ("--" + name)[2..] == name;
  }

  /**
   * {args[i][2:]: args[i+1] for i in xrange(0, len(args), 2)}: an odd-length list reaches
   * past its end (IndexError); otherwise each even-index argument names the option whose
   * value follows it, and a later pair overwrites an earlier one with the same name.
   */
  function ParsePairs(args: seq<string>): (r: Result<map<string, string>>)
    ensures r.Ok? <==> |args| % 2 == 0
    ensures r.Err? ==> r.error == IndexError
    decreases |args|
  {
    if |args| == 0 then Ok(map[])
    else if |args| == 1 then Err(IndexError)
    else
      match ParsePairs(args[..|args| - 2])
      case Err(e) => Err(e)
      case Ok(m) => Ok(m[OptionName(args[|args| - 2]) := args[|args| - 1]])
  }

  /** Position i of args holds an option (even index) whose name is k. */
  predicate NamesOptionAt(args: seq<string>, i: int, k: string) {
    0 <= i < |args| && i % 2 == 0 && OptionName(args[i]) == k
  }

  /** No option after position i has the same name as the one at i. */
  predicate LastOccurrence(args: seq<string>, i: int)
    requires 0 <= i < |args|
  {
    forall j :: i < j < |args| && j % 2 == 0 ==> OptionName(args[j]) != OptionName(args[i])
  }

  /** Every supplied option name is a key of the parsed dict. */
  lemma {:induction false} ParsePairsHasOption(args: seq<string>, i: int)
    requires |args| % 2 == 0 && 0 <= i < |args| && i % 2 == 0
    ensures OptionName(args[i]) in ParsePairs(args).value
    decreases |args|
  {
    var n := |args|;
    var prefix := args[..n - 2];
    assert ParsePairs(args).value == ParsePairs(prefix).value[OptionName(args[n - 2]) := args[n - 1]];
    if i != n - 2 {
      assert prefix[i] == args[i];
      ParsePairsHasOption(prefix, i);
    }
  }

  /** Every key of the parsed dict is the name of some supplied option; the result is its position. */
  lemma {:induction false} ParsePairsKeyOrigin(args: seq<string>, k: string) returns (i: int)
    requires |args| % 2 == 0 && k in ParsePairs(args).value
    ensures NamesOptionAt(args, i, k)
    decreases |args|
  {
    var n := |args|;
    var prefix := args[..n - 2];
    assert ParsePairs(args).value == ParsePairs(prefix).value[OptionName(args[n - 2]) := args[n - 1]];
    if OptionName(args[n - 2]) == k {
      i := n - 2;
    } else {
      i := ParsePairsKeyOrigin(prefix, k);
      assert prefix[i] == args[i];
    }
  }

  /** The parsed dict has exactly the supplied option names. */
  lemma ParsePairsKeys(args: seq<string>)
    requires |args| % 2 == 0
    ensures forall k :: k in ParsePairs(args).value <==> exists i :: NamesOptionAt(args, i, k)
  {
    forall k
      ensures k in ParsePairs(args).value <==> exists i :: NamesOptionAt(args, i, k)
    {
      if k in ParsePairs(args).value {
        var i := ParsePairsKeyOrigin(args, k);
      }
      if exists i :: NamesOptionAt(args, i, k) {
        var i :| NamesOptionAt(args, i, k);
        ParsePairsHasOption(args, i);
      }
    }
  }

  /** An option that is not overridden later is not overridden later in a prefix either. */
  lemma LastOccurrenceInPrefix(args: seq<string>, i: int)
    requires 0 <= i < |args| - 2 && LastOccurrence(args, i)
    ensures LastOccurrence(args[..|args| - 2], i)
  {
    var prefix := args[..|args| - 2];
    forall j | i < j < |prefix| && j % 2 == 0
      ensures OptionName(prefix[j]) != OptionName(prefix[i])
    {
      assert prefix[j] == args[j];
    }
  }

  /** Each option holds the value of its last occurrence: a later pair overwrites an earlier one. */
  lemma {:induction false} ParsePairsLastWins(args: seq<string>, i: int)
    requires |args| % 2 == 0
    requires 0 <= i < |args| && i % 2 == 0 && LastOccurrence(args, i)
    ensures OptionName(args[i]) in ParsePairs(args).value
    ensures ParsePairs(args).value[OptionName(args[i])] == args[i + 1]
    decreases |args|
  {
    var n := |args|;
    var prefix := args[..n - 2];
    var r := ParsePairs(args).value;
    assert r == ParsePairs(prefix).value[OptionName(args[n - 2]) := args[n - 1]];
    if i != n - 2 {
      assert OptionName(args[n - 2]) != OptionName(args[i]);
      assert prefix[i] == args[i] && prefix[i + 1] == args[i + 1];
      LastOccurrenceInPrefix(args, i);
      ParsePairsLastWins(prefix, i);
    }
  }

  /** Line 76: the parsed pairs are merged into the profile's user_config, replacing keys it already has. */
  function MergeUserConfig(profileUserConfig: map<string, string>, pairs: map<string, string>): (r: map<string, string>)
    ensures r.Keys == profileUserConfig.Keys + pairs.Keys
    ensures forall k :: k in pairs ==> r[k] == pairs[k]
    ensures forall k :: k in profileUserConfig && k !in pairs ==> r[k] == profileUserConfig[k]
  {
    profileUserConfig + pairs
  }

  /** The KeyError `configure` raises for a required option nobody supplied. */
  function MissingOptionMessage(kw: string): string {
    "Required configuration option \"" + kw + "\" not supplied. Use --helper to configure interactively"
  }

  /** configure without --helper: every required user-config key must be in the API's user_config. */
  method CheckConfigured(required: Document, apiUserConfig: Document) returns (r: Result<()>)
    ensures r.Ok? <==> required.Keys <= apiUserConfig.Keys
    ensures r.Err? ==> exists kw :: kw in required && kw !in apiUserConfig && r.error == KeyError(MissingOptionMessage(kw))
  {
    var todo := required.Keys;
    while todo != {}
      invariant todo <= required.Keys
      invariant required.Keys - todo <= apiUserConfig.Keys
      decreases todo
    {
      var kw :| kw in todo;
      if kw !in apiUserConfig {
        return Err(KeyError(MissingOptionMessage(kw)));
      }
      todo := todo - {kw};
    }
    r := Ok(());
  }

  /**
   * configure without --helper: parse the extra arguments, merge them into the profile's
   * user_config, check the API's user_config against the required keys, and yield the
   * profile user_config that is written to the config file.
   */
  method Configure(args: seq<string>, profileUserConfig: map<string, string>, apiUserConfig: Document, required: Document)
    returns (r: Result<map<string, string>>)
    ensures r.Ok? <==> |args| % 2 == 0 && required.Keys <= apiUserConfig.Keys
    ensures |args| % 2 != 0 ==> r == Err(IndexError)
    ensures r.Ok? ==> r.value == MergeUserConfig(profileUserConfig, ParsePairs(args).value)
    ensures |args| % 2 == 0 && r.Err?
            ==> exists kw :: kw in required && kw !in apiUserConfig && r.error == KeyError(MissingOptionMessage(kw))
  {
    var pairs := ParsePairs(args);
    if pairs.Err? {
      return Err(pairs.error);
    }
    var merged := MergeUserConfig(profileUserConfig, pairs.value);
    var checked := CheckConfigured(required, apiUserConfig);
    if checked.Err? {
      return Err(checked.error);
    }
    r := Ok(merged);
  }

  /** Python's str.startswith. */
  predicate StartsWith(name: string, prefix: string) {
    prefix <= name
  }

  /** `list`: [name for name in names if name.startswith(prefix)]. */
  function FilterPrefix(names: seq<string>, prefix: string): (r: seq<string>)
    ensures |r| <= |names|
    ensures forall x :: x in r <==> x in names && StartsWith(x, prefix)
  {
    if |names| == 0 then []
    else
      var rest := FilterPrefix(names[1..], prefix);
      assert forall x :: x in names <==> x == names[0] || x in names[1..];
      if StartsWith(names[0], prefix) then [names[0]] + rest else rest
  }

  /** Filtering keeps the original order: it distributes over concatenation. */
  lemma {:induction false} FilterPrefixAppend(a: seq<string>, b: seq<string>, prefix: string)
    ensures FilterPrefix(a + b, prefix) == FilterPrefix(a, prefix) + FilterPrefix(b, prefix)
  {
    if |a| > 0 {
      assert (a + b)[1..] == a[1..] + b;
      FilterPrefixAppend(a[1..], b, prefix);
    } else {
      assert a + b == b;
    }
  }

  /** The default prefix '' lists every archive. */
  lemma {:induction false} FilterEmptyPrefix(names: seq<string>)
    ensures FilterPrefix(names, "") == names
  {
    if |names| > 0 {
      FilterEmptyPrefix(names[1..]);
      assert [names[0]] + names[1..] == names;
    }
  }

  /** Listing with the same prefix twice gives the same list. */
  lemma {:induction false} FilterPrefixIdempotent(names: seq<string>, prefix: string)
    ensures FilterPrefix(FilterPrefix(names, prefix), prefix) == FilterPrefix(names, prefix)
  {
    if |names| > 0 {
      FilterPrefixIdempotent(names[1..], prefix);
      var rest := FilterPrefix(names[1..], prefix);
      if StartsWith(names[0], prefix) {
        assert ([names[0]] + rest)[1..] == rest;
      }
    }
  }
}
