/** The `defang` decorator of `Logger` (logger.py): the transform that makes a
    URL-like resource unclickable before it is formatted into a log message,
    the catch-all fallback to "no resource", and the way the decorated logging
    call spreads the result into `str.format`. */
module Defang {
  import opened Wrappers
  import opened Strings

  /** One element of an iterable resource: a `str`, or any value whose
      `replace("http", "hxxp")` raises (an int has no `replace`; for bytes
      the `str` arguments are refused). */
  datatype Item = StrItem(s: string) | OtherItem

  /** The value of the `resource` keyword argument.
      `StrRes` is a value whose type is exactly `str`. `ListRes` is any other
      iterable, as the sequence of values it yields: a list, a tuple, bytes,
      or a subclass of `str` (which fails the `type(resource) == str` test
      and is iterated character by character). `OtherRes` is a value that
      cannot be iterated, such as a number. */
  datatype Resource = NoneRes | StrRes(s: string) | ListRes(items: seq<Item>) | OtherRes

  /** A resource that was defanged successfully: one string, or a list of them. */
  datatype Arg = Text(s: string) | Texts(ss: seq<string>)

  /** A positional argument handed to `message.format`. */
  datatype FmtArg = NoneArg | StrArg(s: string)

  /** Every '.' sits inside a "[.]" block. */
  predicate DotsBracketed(t: string)
  {
    forall i :: 0 <= i < |t| && t[i] == '.' ==> 0 < i < |t| - 1 && t[i - 1] == '[' && t[i + 1] == ']'
  }

  /** What a defanged string looks like: it is quoted, "http" no longer
      occurs in it and every dot is bracketed. */
  predicate Neutralized(d: string)
  {
    |d| >= 2 && d[0] == '"' && d[|d| - 1] == '"' && !Contains(d, "http") && DotsBracketed(d)
  }

  /** The first replacement leaves no "http" behind: an "hxxp" block cannot
      start one, and a copied 'h' followed by "ttp" would have been replaced. */
  lemma {:induction false} HttpGone(s: string)
    ensures !Contains(Replace(s, "http", "hxxp"), "http")
    decreases |s|
  {
    var t := Replace(s, "http", "hxxp");
    if |s| < 4 {
      assert t == s;
    } else if s[..4] == "http" {
      var tail := Replace(s[4..], "http", "hxxp");
      assert t == "hxxp" + tail;
      HttpGone(s[4..]);
      forall i: nat | i <= |t| ensures !OccursAt(t, "http", i) {
        if i < 4 {
          assert t[0] == 'h' && t[1] == 'x' && t[2] == 'x' && t[3] == 'p';
          if i + 4 <= |t| {
            assert t[i..i + 4][0] == t[i] && t[i..i + 4][1] == t[i + 1];
          }
        } else {
          OccursAfterPrefix("hxxp", tail, "http", i);
        }
      }
    } else {
      var tail := Replace(s[1..], "http", "hxxp");
      assert t == [s[0]] + tail;
      HttpGone(s[1..]);
      forall i: nat | i <= |t| ensures !OccursAt(t, "http", i) {
        if i == 0 {
          PrefixPulledBack(s[1..], "http", "hxxp", "ttp");
          assert s[..4] == [s[0]] + s[1..4];
          if |t| >= 4 {
            assert t[0..4] == [s[0]] + tail[..3];
            if s[0] == 'h' {
              assert s[1..4] != "ttp";
              assert s[1..][..3] == s[1..4];
              assert !("ttp" <= tail);
              assert tail[..3] != "ttp";
              assert ([s[0]] + tail[..3])[1..] == tail[..3];
            } else {
              assert t[0..4][0] == s[0];
            }
          }
        } else {
          OccursAfterPrefix([s[0]], tail, "http", i);
        }
      }
    }
  }

  /** Replacing "." by "[.]" brackets every dot of the result. */
  lemma {:induction false} DotsGetBracketed(s: string)
    ensures DotsBracketed(Replace(s, ".", "[.]"))
    decreases |s|
  {
    if |s| >= 1 {
      var t := Replace(s, ".", "[.]");
      if s[..1] == "." {
        var tail := Replace(s[1..], ".", "[.]");
        assert t == "[.]" + tail;
        DotsGetBracketed(s[1..]);
        forall i | 0 <= i < |t| && t[i] == '.'
          ensures 0 < i < |t| - 1 && t[i - 1] == '[' && t[i + 1] == ']'
        {
          if i >= 3 {
            assert tail[i - 3] == t[i];
          }
        }
      } else {
        var tail := Replace(s[1..], ".", "[.]");
        assert t == [s[0]] + tail;
        assert t[0] != '.' by { assert s[..1] == [s[0]]; }
        DotsGetBracketed(s[1..]);
        forall i | 0 <= i < |t| && t[i] == '.'
          ensures 0 < i < |t| - 1 && t[i - 1] == '[' && t[i + 1] == ']'
        {
          assert tail[i - 1] == t[i];
        }
      }
    }
  }

  /** Quoting keeps every dot bracketed. */
  lemma QuotingKeepsDotsBracketed(t: string)
    requires DotsBracketed(t)
    ensures DotsBracketed("\"" + t + "\"")
  {
    var q := "\"" + t + "\"";
    forall i | 0 <= i < |q| && q[i] == '.'
      ensures 0 < i < |q| - 1 && q[i - 1] == '[' && q[i + 1] == ']'
    {
      assert 0 < i < |q| - 1;
      assert q[i] == t[i - 1];
    }
  }

  /** The transform of one string (logger.py lines 59-62, repeated for list
      items at lines 67-70): "http" becomes "hxxp", then "://" becomes
      "[://]", then "." becomes "[.]", and the result is wrapped in double
      quotes. */
  function DefangString(s: string): string
  {
    var noScheme := Replace(s, "http", "hxxp");
    var noSeparator := Replace(noScheme, "://", "[://]");
    var noDots := Replace(noSeparator, ".", "[.]");
    "\"" + noDots + "\""
  }

  /** Whatever the input, the defanged string is quoted, holds no "http"
      (the later replacements and the quotes add no 'h', 't' or 'p') and has
      every dot bracketed. */
  lemma DefangStringNeutralized(s: string)
    ensures |DefangString(s)| >= 2
    ensures DefangString(s)[0] == '"' && DefangString(s)[|DefangString(s)| - 1] == '"'
    ensures !Contains(DefangString(s), "http")
    ensures DotsBracketed(DefangString(s))
  {
    var noScheme := Replace(s, "http", "hxxp");
    var noSeparator := Replace(noScheme, "://", "[://]");
    var noDots := Replace(noSeparator, ".", "[.]");
    HttpGone(s);
    ReplaceKeepsAbsent(noScheme, "://", "[://]", "http");
    ReplaceKeepsAbsent(noSeparator, ".", "[.]", "http");
    QuoteKeepsAbsent(noDots, "http");
    DotsGetBracketed(noSeparator);
    QuotingKeepsDotsBracketed(noDots);
  }

  /** Every element of an iterable resource is a string. */
  predicate AllStrings(items: seq<Item>)
  {
    forall k :: 0 <= k < |items| ==> items[k].StrItem?
  }

  /** The list branch as a value: defang each element in order, or fail as
      soon as one element is not a string. */
  function DefangItems(items: seq<Item>): Option<seq<string>>
    decreases |items|
  {
    if items == [] then Some([])
    else match items[0]
      case OtherItem => None
      case StrItem(s) =>
        match DefangItems(items[1..])
        case None => None
        case Some(rest) => Some([DefangString(s)] + rest)
  }

  /** The list branch succeeds exactly when every element is a string, and
      then it is the element-wise map of the string transform. */
  lemma {:induction false} DefangItemsElementwise(items: seq<Item>)
    ensures DefangItems(items).Some? <==> AllStrings(items)
    ensures DefangItems(items).Some? ==>
      |DefangItems(items).value| == |items| &&
      forall k :: 0 <= k < |items| ==> DefangItems(items).value[k] == DefangString(items[k].s)
    decreases |items|
  {
    if items != [] {
      DefangItemsElementwise(items[1..]);
      if !AllStrings(items[1..]) {
        var k :| 0 <= k < |items[1..]| && !items[1..][k].StrItem?;
        assert !items[k + 1].StrItem?;
      }
      if items[0].StrItem? && AllStrings(items[1..]) {
        forall k | 0 <= k < |items| ensures items[k].StrItem? {
          if k > 0 { assert items[k] == items[1..][k - 1]; }
        }
      }
    }
  }

  /** The loop of logger.py lines 65-71: build the list of defanged
      elements one `append` at a time; the first element that is not a
      string raises, which the surrounding `except` turns into None. */
  method DefangList(items: seq<Item>) returns (r: Option<seq<string>>)
    ensures r.Some? <==> AllStrings(items)
    ensures r.Some? ==>
      |r.value| == |items| &&
      forall k :: 0 <= k < |items| ==> r.value[k] == DefangString(items[k].s)
    ensures r == DefangItems(items)
  {
    DefangItemsElementwise(items);
    var defangedResources: seq<string> := [];
    var i := 0;
    while i < |items|
      invariant 0 <= i <= |items|
      invariant |defangedResources| == i
      invariant forall k :: 0 <= k < i ==> items[k].StrItem?
      invariant forall k :: 0 <= k < i ==> defangedResources[k] == DefangString(items[k].s)
    {
      match items[i] {
        case OtherItem =>
          return None;
        case StrItem(s) =>
          var defanged := DefangString(s);
          defangedResources := defangedResources + [defanged];
      }
      i := i + 1;
    }
    r := Some(defangedResources);
    assert r.value == DefangItems(items).value;
  }

  /** The `try` block of the wrapper (logger.py lines 56-72) as a value:
      `resource` is None when the keyword argument is missing (the `KeyError`
      at line 57). None as the result means "no resource". */
  function Defang(resource: Option<Resource>): (r: Option<Arg>)
    ensures r.None? <==>
      resource.None? || resource.value.NoneRes? || resource.value.OtherRes? ||
      (resource.value.ListRes? && !AllStrings(resource.value.items))
    ensures r.Some? && r.value.Text? ==>
      resource.value.StrRes? && r.value.s == DefangString(resource.value.s)
    ensures r.Some? && r.value.Texts? ==>
      resource.value.ListRes? && |r.value.ss| == |resource.value.items| &&
      forall k :: 0 <= k < |r.value.ss| ==> r.value.ss[k] == DefangString(resource.value.items[k].s)
  {
    match resource
    case None => None
    case Some(NoneRes) => None
    case Some(OtherRes) => None
    case Some(StrRes(s)) => Some(Text(DefangString(s)))
    case Some(ListRes(items)) =>
      DefangItemsElementwise(items);
      match DefangItems(items)
      case None => None
      case Some(ds) => Some(Texts(ds))
  }

  /** The wrapper (logger.py lines 55-74) as the sequence of resource values
      it calls the decorated method with. `raises(a)` says whether the
      decorated method raises when called with resource `a`: it formats the
      message before writing, and a placeholder the arguments cannot fill
      raises. The bare `except` catches that too, so after a call with the
      defanged value raises, the method is called once more with None. */
  function WrapperCalls(resource: Option<Resource>, raises: Option<Arg> -> bool): (calls: seq<Option<Arg>>)
    ensures 1 <= |calls| <= 2 && calls[0] == Defang(resource)
    ensures |calls| == 2 <==> Defang(resource).Some? && raises(Defang(resource))
    ensures |calls| == 2 ==> calls[1] == None
  {
    match Defang(resource)
    case None => [None]
    case Some(a) => if raises(Some(a)) then [Some(a), None] else [Some(a)]
  }

  /** The branch of each logging method (e.g. logger.py lines 80-83): a list
      is spread as positional arguments of `message.format`, anything else
      (a string or None) is passed as its single argument. */
  function FormatArgs(resource: Option<Arg>): (args: seq<FmtArg>)
    ensures resource.Some? && resource.value.Texts? ==>
      |args| == |resource.value.ss| &&
      forall k :: 0 <= k < |args| ==> args[k] == StrArg(resource.value.ss[k])
    ensures resource.Some? && resource.value.Text? ==> args == [StrArg(resource.value.s)]
    ensures resource.None? ==> args == [NoneArg]
  {
    match resource
    case None => [NoneArg]
    case Some(Text(s)) => [StrArg(s)]
    case Some(Texts(ss)) => seq(|ss|, k requires 0 <= k < |ss| => StrArg(ss[k]))
  }

  /** Whatever the resource and however the decorated method behaves, every
      string that reaches `message.format` has been defanged: it is quoted,
      holds no "http" and has every dot bracketed. A resource the transform
      cannot handle is formatted as None. */
  lemma OnlyNeutralizedTextReachesFormat(resource: Option<Resource>, raises: Option<Arg> -> bool)
    ensures forall c, a :: c in WrapperCalls(resource, raises) && a in FormatArgs(c) && a.StrArg? ==>
      Neutralized(a.s)
    ensures Defang(resource).None? ==> WrapperCalls(resource, raises) == [None] && FormatArgs(None) == [NoneArg]
  {
    var calls := WrapperCalls(resource, raises);
    forall c, a | c in calls && a in FormatArgs(c) && a.StrArg? ensures Neutralized(a.s) {
      var args := FormatArgs(c);
      var k :| 0 <= k < |args| && args[k] == a;
      assert c == Defang(resource);
      match c.value
      case Text(s) =>
        DefangStringNeutralized(resource.value.s);
      case Texts(ss) =>
        assert a.s == ss[k] == DefangString(resource.value.items[k].s);
        DefangStringNeutralized(resource.value.items[k].s);
    }
  }

  /** A URL of the shape "http://<host>.<tld>", whose parts hold no 'h', ':'
      or '.', is defanged to "\"hxxp[://]<host>[.]<tld>\"": the separator
      and the dot stay, inside brackets. */
  lemma DefangSimpleUrl(host: string, tld: string)
    requires 'h' !in host && ':' !in host && '.' !in host
    requires 'h' !in tld && ':' !in tld && '.' !in tld
    ensures DefangString("http" + ("://" + (host + ("." + tld))))
         == "\"" + ("hxxp" + ("[://]" + (host + ("[.]" + tld)))) + "\""
  {
    var dotTld := "." + tld;
    var hostDotTld := host + dotTld;
    var afterScheme := "://" + hostDotTld;
    assert 'h' !in afterScheme;
    FirstCharAbsent(afterScheme, "http");
    SchemeStep(afterScheme);
    SeparatorStep(hostDotTld);
    DotStep(host, tld);
  }

  /** The first replacement on a URL whose remainder holds no further "http". */
  lemma SchemeStep(afterScheme: string)
    requires !Contains(afterScheme, "http")
    ensures Replace("http" + afterScheme, "http", "hxxp") == "hxxp" + afterScheme
  {
    ReplaceAtFront(afterScheme, "http", "hxxp");
    ReplaceAbsent(afterScheme, "http", "hxxp");
  }

  /** The second replacement on "hxxp://" followed by text without ':'. */
  lemma SeparatorStep(rest: string)
    requires ':' !in rest
    ensures Replace("hxxp" + ("://" + rest), "://", "[://]") == "hxxp" + ("[://]" + rest)
  {
    assert "hxxp" + ("://" + rest) == "hxxp" + "://" + rest;
    ReplaceOnce("hxxp", rest, "://", "[://]");
    assert "hxxp" + "[://]" + rest == "hxxp" + ("[://]" + rest);
  }

  /** The third replacement when host and top-level domain hold no dot. */
  lemma DotStep(host: string, tld: string)
    requires '.' !in host && '.' !in tld
    ensures Replace("hxxp" + ("[://]" + (host + ("." + tld))), ".", "[.]")
         == "hxxp" + ("[://]" + (host + ("[.]" + tld)))
  {
    var before := "hxxp" + ("[://]" + host);
    assert '.' !in before;
    assert "hxxp" + ("[://]" + (host + ("." + tld))) == before + "." + tld;
    ReplaceOnce(before, tld, ".", "[.]");
    assert before + "[.]" + tld == "hxxp" + ("[://]" + (host + ("[.]" + tld)));
  }

  /** The example URL and its defanged form, split into their parts. */
  lemma ExampleSplits()
    ensures "http://example.com" == "http" + ("://" + ("example" + ("." + "com")))
    ensures "\"" + ("hxxp" + ("[://]" + ("example" + ("[.]" + "com")))) + "\"" == "\"hxxp[://]example[.]com\""
  {
  }

  /** The example of the class documentation (logger.py lines 15-19): the
      URL comes out with a neutered scheme and with the separator and the dot
      kept inside brackets, and it is passed to `format` as one argument. */
  lemma ExampleUrl(url: string)
    requires url == "http://example.com"
    ensures Defang(Some(StrRes(url))) == Some(Text("\"hxxp[://]example[.]com\""))
    ensures FormatArgs(Defang(Some(StrRes(url)))) == [StrArg("\"hxxp[://]example[.]com\"")]
  {
    ExampleSplits();
    DefangSimpleUrl("example", "com");
  }

  /** "://" and "." are bracketed, not removed: both still occur in the
      defanged example. */
  lemma SeparatorAndDotRemain(url: string)
    requires url == "http://example.com"
    ensures Contains(DefangString(url), "://") && Contains(DefangString(url), ".")
  {
    ExampleUrl(url);
    var d := DefangString(url);
    assert d == "\"hxxp[://]example[.]com\"";
    assert d[6] == ':' && d[7] == '/' && d[8] == '/' && d[6..9] == [d[6], d[7], d[8]];
    assert OccursAt(d, "://", 6);
    assert d[18] == '.' && d[18..19] == [d[18]];
    assert OccursAt(d, ".", 18);
  }
}
