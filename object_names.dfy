/**
 * LabelSupportedObjectNameFactory: turns a labeled metric name into the
 * text of a JMX object name, `domain:name=<base>,<k1>=<v1>,...`, quoting
 * the domain when JMX would read it as a pattern or refuses it.
 *
 * The JMX library is not modelled; its answers are parameters:
 *   validDomain(d) -- `new ObjectName(d, "key", "value")` does not throw;
 *   isPattern(d)   -- `isDomainPattern()` of that object name;
 *   validName(t)   -- `new ObjectName(t)` does not throw.
 * An object name is represented by the text it is built from.
 */
module ObjectNames {
  import opened JavaStrings
  import opened Outcomes
  import opened Labeled
  import opened JmxQuote

  /** `extractMetricName`: the text before `[` of a labeled name, any other name as it is. */
  function ExtractMetricName(s: string): (r: string)
    ensures !HasLabel(s) ==> r == s
    ensures HasLabel(s) ==> |r| >= 1 && NoBrackets(r) && r + "[" <= s
  {
    if !HasLabel(s) then s
    else
      LabeledParts(s);
      var i := IndexOf(s, '[');
      assert s[..i] + "[" == s[..i + 1];
      s[..i]
  }

  /** `extractLabels`: the text between `[` and the final `]` of a labeled name, verbatim; "" for any other name. */
  function ExtractLabels(s: string): (r: string)
    ensures !HasLabel(s) ==> r == ""
    ensures HasLabel(s) ==> NoBrackets(r) && |r| + 3 <= |s| && s[|s| - |r| - 2] == '[' && s[|s| - |r| - 1..] == r + "]"
  {
    if !HasLabel(s) then ""
    else
      BodyAtEnd(s);
      Body(s)
  }

  /** The body of a labeled name is followed by the final `]` only, and preceded by `[`. */
  lemma BodyAtEnd(s: string)
    requires HasLabel(s)
    ensures |Body(s)| + 3 <= |s|
    ensures s[|s| - |Body(s)| - 2] == '['
    ensures s[|s| - |Body(s)| - 1..] == Body(s) + "]"
  {
    LabeledParts(s);
    var i := IndexOf(s, '[');
    var b := Body(s);
    assert |s| == i + |b| + 2;
    assert s[i + 1..] == b + "]";
  }

  /** A labeled name is its metric name, `[`, its labels and `]`. */
  lemma Reconstruct(s: string)
    requires HasLabel(s)
    ensures ExtractMetricName(s) + "[" + ExtractLabels(s) + "]" == s
  {
    LabeledParts(s);
  }

  /** And the two parts of `base[body]` are found again. */
  lemma ExtractParts(base: string, body: string)
    requires |base| >= 1 && NoBrackets(base) && NoBrackets(body)
    ensures ExtractMetricName(base + "[" + body + "]") == base
    ensures ExtractLabels(base + "[" + body + "]") == body
  {
    var s := base + "[" + body + "]";
    PartsLabeled(base, body);
    assert s[..|base|] == base;
  }

  /** The text `createName` hands to `new ObjectName`, once the domain is settled. */
  function ObjectNameText(domain: string, labeledMetricName: string): (r: string)
    ensures |r| >= |domain| + 6 && r[..|domain| + 6] == domain + ":name="
    ensures !HasLabel(labeledMetricName) ==> r == domain + ":name=" + labeledMetricName
  {
    var labels := ExtractLabels(labeledMetricName);
    var metricName := ExtractMetricName(labeledMetricName);
    domain + ":name=" + metricName + (if labels == "" then "" else "," + labels)
  }

  /** `,k1=v1,...,kn=vn`: the key properties the labels become, in their order. */
  function Properties(es: seq<Entry>): string
  {
    if es == [] then "" else "," + Token(es[0]) + Properties(es[1..])
  }

  lemma {:induction false} PropertiesJoin(es: seq<Entry>)
    requires es != []
    ensures "," + Join(Tokens(es), ',') == Properties(es)
  {
    var ts := Tokens(es);
    if |es| > 1 {
      var rest := es[1..];
      assert ts[1..] == Tokens(rest);
      PropertiesJoin(rest);
      assert Join(ts, ',') == ts[0] + [','] + Join(Tokens(rest), ',');
      Prefixed(ts[0], Join(Tokens(rest), ','));
    } else {
      assert es[1..] == [];
    }
  }

  /** A comma in front of `a,b` is `,a` followed by `,b`. */
  lemma Prefixed(a: string, b: string)
    ensures "," + (a + [','] + b) == "," + a + ("," + b)
  {
  }

  /** The object name of a builder's name: `name` comes first and the labels follow in their order. */
  lemma ObjectNameOfCanonical(domain: string, base: string, es: seq<Entry>)
    requires |base| >= 1 && NoBrackets(base)
    requires forall i :: 0 <= i < |es| ==> NoBrackets(Token(es[i]))
    ensures ObjectNameText(domain, Canonical(base, es)) == domain + ":name=" + base + Properties(es)
  {
    if es == [] {
      assert IndexOf(base, '[') == -1;
    } else {
      var ts := Tokens(es);
      forall p | p in ts ensures '[' !in p && ']' !in p {
        var i :| 0 <= i < |ts| && ts[i] == p;
      }
      JoinAvoids(ts, ',', '[');
      JoinAvoids(ts, ',', ']');
      var body := Join(ts, ',');
      ExtractParts(base, body);
      PropertiesJoin(es);
      assert body != "" by {
        assert |ts[0]| > 0;
        JoinHead(ts, ',');
      }
    }
  }

  /** The join starts with the first piece. */
  lemma JoinHead(ps: seq<string>, c: char)
    requires |ps| >= 1
    ensures |Join(ps, c)| >= |ps[0]|
  {
  }

  /**
   * A non-empty bracket body is copied behind `,` as it stands, unchecked:
   * `m[key1]` gives `domain:name=m,key1`, which only the JMX parser refuses.
   */
  lemma BodyVerbatim(domain: string, base: string, body: string)
    requires |base| >= 1 && NoBrackets(base) && NoBrackets(body) && body != ""
    ensures ObjectNameText(domain, base + "[" + body + "]") == domain + ":name=" + base + "," + body
  {
    ExtractParts(base, body);
  }

  /** An empty bracket adds no property: `m[]` gives `domain:name=m`. */
  lemma EmptyLabelsObjectName(domain: string, base: string)
    requires |base| >= 1 && NoBrackets(base)
    ensures ObjectNameText(domain, base + "[]") == domain + ":name=" + base
  {
    var s := base + "[" + "" + "]";
    assert s == base + "[]";
    ExtractParts(base, "");
    assert ExtractLabels(s) == "" && ExtractMetricName(s) == base;
    assert ObjectNameText(domain, s) == domain + ":name=" + base + "";
  }

  /** The decision `quoteDomainIfRequired` makes, as a table. */
  function DomainDecision(d: string, validDomain: string -> bool, isPattern: string -> bool): (r: Result<string>)
    ensures r.Ok? ==> validDomain(r.value)
    ensures r.Ok? ==> r.value == d || r.value == Quote(d) || r.value == Quote(Quote(d))
    ensures r == Ok(d) <==> validDomain(d) && !isPattern(d)
    ensures r.Err? ==> r.error.InvalidDomain?
  {
    if validDomain(d) && !isPattern(d) then Ok(d)
    else if validDomain(d) then
      if validDomain(Quote(d)) then Ok(Quote(d))
      else if validDomain(Quote(Quote(d))) then Ok(Quote(Quote(d)))
      else Err(InvalidDomain(Quote(Quote(d))))
    else if validDomain(Quote(d)) then Ok(Quote(d))
    else Err(InvalidDomain(Quote(d)))
  }

  /**
   * `quoteDomainIfRequired`: build a test object name; quote a domain that
   * is a pattern and build again; when a build throws, quote the domain as
   * it is at that moment and build once more.
   */
  method QuoteDomainIfRequired(d: string, validDomain: string -> bool, isPattern: string -> bool)
    returns (r: Result<string>)
    ensures validDomain(d) && !isPattern(d) ==> r == Ok(d)
    ensures validDomain(d) && isPattern(d) && validDomain(Quote(d)) ==> r == Ok(Quote(d))
    ensures !validDomain(d) && validDomain(Quote(d)) ==> r == Ok(Quote(d))
    ensures validDomain(d) && isPattern(d) && !validDomain(Quote(d)) ==>
              r == if validDomain(Quote(Quote(d))) then Ok(Quote(Quote(d)))
                   else Err(InvalidDomain(Quote(Quote(d))))
    ensures !validDomain(d) && !validDomain(Quote(d)) ==> r == Err(InvalidDomain(Quote(d)))
    ensures r == DomainDecision(d, validDomain, isPattern)
  {
    var domain := d;
    var thrown := false;
    if !validDomain(domain) {
      thrown := true;
    } else {
      if isPattern(domain) {
        domain := Quote(domain);
      }
      if !validDomain(domain) {
        thrown := true;
      }
    }
    if thrown {
      domain := Quote(domain);
      if !validDomain(domain) {
        return Err(InvalidDomain(domain));
      }
    }
    return Ok(domain);
  }

  /**
   * `createName`: the metric type is not used. Every failure is an
   * AssertionError, never the IllegalArgumentException Dropwizard reads
   * as a duplicate name.
   */
  method CreateName(
    metricType: string, domain: string, labeledMetricName: string,
    validDomain: string -> bool, isPattern: string -> bool, validName: string -> bool)
    returns (r: Result<string>)
    ensures DomainDecision(domain, validDomain, isPattern).Err? ==>
              r == Err(DomainDecision(domain, validDomain, isPattern).error)
    ensures DomainDecision(domain, validDomain, isPattern).Ok? ==>
              var text := ObjectNameText(DomainDecision(domain, validDomain, isPattern).value, labeledMetricName);
              r == if validName(text) then Ok(text) else Err(MalformedObjectName(text))
    ensures r.Err? ==> IsAssertionError(r.error)
    ensures r.Ok? ==> validName(r.value)
  {
    var labels := ExtractLabels(labeledMetricName);
    var metricName := ExtractMetricName(labeledMetricName);
    var quoted := QuoteDomainIfRequired(domain, validDomain, isPattern);
    if quoted.Err? {
      return Err(quoted.error);
    }
    var objectName := quoted.value + ":name=" + metricName + (if labels == "" then "" else "," + labels);
    if !validName(objectName) {
      return Err(MalformedObjectName(objectName));
    }
    return Ok(objectName);
  }
}
