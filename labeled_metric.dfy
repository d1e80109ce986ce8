/**
 * LabeledMetric: a labeled metric name carries the metric name and its
 * labels in one string, `base[k1=v1,k2=v2]`. This module holds the
 * builder that writes such names (a class with the Java builder's mutable
 * buffer and flag), the shape test `hasLabel`, and the decoder
 * `extractLabels`.
 */
module Labeled {
  import opened JavaStrings
  import opened Outcomes

  /** One label: a key and its value. */
  datatype Entry = Entry(key: string, value: string)

  /** The keys `label` refuses: they clash with the properties the object name gets anyway. */
  predicate IsReserved(key: string)
  {
    key == "name" || key == "type"
  }

  predicate NoBrackets(s: string)
  {
    '[' !in s && ']' !in s
  }

  // ---------------------------------------------------------------------
  // The shape of a labeled name

  /** `hasLabel`: four conditions on Java's index queries. */
  predicate HasLabel(s: string)
    ensures HasLabel(s) ==> 3 <= |s| && s[0] != '[' && s[|s| - 1] == ']'
  {
    && LastIndexOf(s, ']') == |s| - 1
    && IndexOf(s, '[') >= 1
    && IndexOf(s, '[') == LastIndexOf(s, '[')
    && IndexOf(s, ']') == LastIndexOf(s, ']')
  }

  /** The same shape without index queries: the only `[` at index i >= 1, the only `]` last. */
  ghost predicate LabeledAt(s: string, i: int)
  {
    && 1 <= i < |s| - 1
    && s[i] == '['
    && s[|s| - 1] == ']'
    && NoBrackets(s[..i])
    && NoBrackets(s[i + 1..|s| - 1])
  }

  /** `s.substring(s.indexOf('[') + 1, s.lastIndexOf(']'))` on a labeled name. */
  function Body(s: string): (r: string)
    requires HasLabel(s)
    ensures NoBrackets(r)
  {
    var i := IndexOf(s, '[');
    var j := LastIndexOf(s, ']');
    assert s[i + 1..j] == s[i + 1..][..j - i - 1];
    assert s[i + 1..j] == s[..j][i + 1..];
    s[i + 1..j]
  }

  /** A labeled name is a bracket-free base, `[`, a bracket-free body and a final `]`. */
  lemma LabeledParts(s: string)
    requires HasLabel(s)
    ensures LabeledAt(s, IndexOf(s, '['))
    ensures s == s[..IndexOf(s, '[')] + "[" + Body(s) + "]"
  {
    var i := IndexOf(s, '[');
    var body := Body(s);
    assert s[i + 1..|s| - 1] == body;
    assert ']' !in s[..i] by {
      assert s[..i] == s[..|s| - 1][..i];
    }
    assert s == s[..i] + [s[i]] + s[i + 1..|s| - 1] + [s[|s| - 1]];
  }

  /** Conversely base[body] is labeled, with those parts, when base is non-empty and no part has a bracket. */
  lemma PartsLabeled(base: string, body: string)
    requires |base| >= 1 && NoBrackets(base) && NoBrackets(body)
    ensures HasLabel(base + "[" + body + "]")
    ensures IndexOf(base + "[" + body + "]", '[') == |base|
    ensures Body(base + "[" + body + "]") == body
  {
    var tail := body + "]";
    var open := base + "[" + body;
    var s := base + "[" + body + "]";
    assert s == base + ['['] + tail;
    assert s == open + [']'] + "";
    assert '[' !in tail;
    assert ']' !in open;
    IndexOfAfter(base, '[', tail);
    LastIndexOfBefore(base, '[', tail);
    IndexOfAfter(open, ']', "");
    LastIndexOfBefore(open, ']', "");
    assert s[|base| + 1..|s| - 1] == body;
  }

  /** hasLabel holds exactly of the names of that shape; so never of "" nor of a name that starts with `[`. */
  lemma HasLabelShape(s: string)
    ensures HasLabel(s) <==> exists i :: LabeledAt(s, i)
    ensures |s| == 0 || s[0] == '[' ==> !HasLabel(s)
  {
    if HasLabel(s) {
      LabeledParts(s);
    }
    if i :| LabeledAt(s, i) {
      Bracketed(s, i);
      PartsLabeled(s[..i], s[i + 1..|s| - 1]);
    }
  }

  /** A string with `[` at i and `]` last is its prefix, `[`, its middle and `]`. */
  lemma Bracketed(s: string, i: int)
    requires 0 <= i < |s| - 1 && s[i] == '[' && s[|s| - 1] == ']'
    ensures s == s[..i] + "[" + s[i + 1..|s| - 1] + "]"
  {
  }

  // ---------------------------------------------------------------------
  // What the builder writes

  /** `k=v`, the text one label contributes. */
  function Token(e: Entry): string
  {
    e.key + "=" + e.value
  }

  function Tokens(es: seq<Entry>): seq<string>
  {
    seq(|es|, i requires 0 <= i < |es| => Token(es[i]))
  }

  /** The canonical name `base[k1=v1,...,kn=vn]`, or `base` for no labels. */
  function Canonical(base: string, es: seq<Entry>): string
  {
    if es == [] then base else base + "[" + Join(Tokens(es), ',') + "]"
  }

  /** The unclosed form `base[k1=v1,...,kn=vn`, or `base` for no labels. */
  function Open(base: string, es: seq<Entry>): string
  {
    if es == [] then base else base + "[" + Join(Tokens(es), ',')
  }

  /** One successful call on a builder: a label added, or toString. */
  datatype Step = Added(entry: Entry) | Closed

  function Adds(es: seq<Entry>): seq<Step>
  {
    seq(|es|, i requires 0 <= i < |es| => Added(es[i]))
  }

  /** The builder's `hasLabel` flag after the steps. */
  function FlagAfter(steps: seq<Step>): bool
  {
    if steps == [] then false
    else steps[|steps| - 1].Added? || FlagAfter(steps[..|steps| - 1])
  }

  /** The builder's buffer after the steps, from a builder created with `base`. */
  function BufferAfter(base: string, steps: seq<Step>): string
  {
    if steps == [] then base
    else
      var prior := steps[..|steps| - 1];
      var had := FlagAfter(prior);
      match steps[|steps| - 1]
      case Added(e) => BufferAfter(base, prior) + (if had then "," else "[") + Token(e)
      case Closed => BufferAfter(base, prior) + (if had then "]" else "")
  }

  /** The index of the first entry whose key is reserved, or |es| when there is none. */
  function FirstReserved(es: seq<Entry>): (r: nat)
    ensures r <= |es|
    ensures forall j :: 0 <= j < r ==> !IsReserved(es[j].key)
    ensures r < |es| ==> IsReserved(es[r].key)
  {
    if es == [] || IsReserved(es[0].key) then 0 else 1 + FirstReserved(es[1..])
  }

  /** The first reserved key is at i when none comes before i and i is reserved or the end. */
  lemma FirstReservedAt(es: seq<Entry>, i: nat)
    requires i <= |es|
    requires forall j :: 0 <= j < i ==> !IsReserved(es[j].key)
    requires i < |es| ==> IsReserved(es[i].key)
    ensures FirstReserved(es) == i
  {
  }

  /** One more entry adds one more step. */
  lemma AddsSnoc(prior: seq<Step>, es: seq<Entry>, i: nat)
    requires i < |es|
    ensures prior + Adds(es[..i]) + [Added(es[i])] == prior + Adds(es[..i + 1])
  {
    assert Adds(es[..i + 1]) == Adds(es[..i]) + [Added(es[i])];
  }

  /** The builder. It is used by one thread at a time; it has no locking. */
  class LabeledMetric {
    var nameAndLabels: string
    var hasLabel: bool
    /** The metric name the builder was created with. */
    ghost const base: string
    /** The successful label and toString calls so far. */
    ghost var steps: seq<Step>

    ghost predicate Valid()
      reads this
    {
      nameAndLabels == BufferAfter(base, steps) && hasLabel == FlagAfter(steps)
    }

    /** The private constructor; `name` joins its parts with MetricRegistry.name first. */
    constructor (metricName: string)
      ensures Valid() && base == metricName && steps == []
      ensures nameAndLabels == metricName && !hasLabel
    {
      nameAndLabels := metricName;
      hasLabel := false;
      base := metricName;
      steps := [];
    }

    /** `label`: refuses a reserved key before touching anything, otherwise appends `[k=v` or `,k=v`. */
    method Label(key: string, value: string) returns (r: Outcome)
      requires Valid()
      modifies this
      ensures Valid()
      ensures IsReserved(key) ==>
                && r == Fail(ReservedLabelKey(key))
                && nameAndLabels == old(nameAndLabels) && hasLabel == old(hasLabel)
                && steps == old(steps)
      ensures !IsReserved(key) ==>
                && r == Pass
                && nameAndLabels == old(nameAndLabels) + (if old(hasLabel) then "," else "[") + key + "=" + value
                && hasLabel
                && steps == old(steps) + [Added(Entry(key, value))]
    {
      if key == "name" || key == "type" {
        return Fail(ReservedLabelKey(key));
      }
      if hasLabel {
        nameAndLabels := nameAndLabels + ",";
      } else {
        nameAndLabels := nameAndLabels + "[";
      }
      hasLabel := true;
      nameAndLabels := nameAndLabels + key + "=" + value;
      steps := steps + [Added(Entry(key, value))];
      assert steps[..|steps| - 1] == old(steps);
      r := Pass;
    }

    /** `labels`: `label` once per entry in order; a reserved key stops it after the earlier entries went in. */
    method Labels(entries: seq<Entry>) returns (r: Outcome)
      requires Valid()
      modifies this
      ensures Valid()
      ensures steps == old(steps) + Adds(entries[..FirstReserved(entries)])
      ensures r == if FirstReserved(entries) == |entries| then Pass
                   else Fail(ReservedLabelKey(entries[FirstReserved(entries)].key))
    {
      var i := 0;
      while i < |entries|
        invariant 0 <= i <= |entries|
        invariant Valid()
        invariant forall j :: 0 <= j < i ==> !IsReserved(entries[j].key)
        invariant steps == old(steps) + Adds(entries[..i])
      {
        r := Label(entries[i].key, entries[i].value);
        if r.Fail? {
          FirstReservedAt(entries, i);
          return;
        }
        AddsSnoc(old(steps), entries, i);
        i := i + 1;
      }
      assert entries[..i] == entries;
      FirstReservedAt(entries, i);
      r := Pass;
    }

    /** `toString`: appends `]` when a label was added, on every call, and returns the buffer. */
    method ToString() returns (s: string)
      requires Valid()
      modifies this
      ensures Valid()
      ensures steps == old(steps) + [Closed]
      ensures nameAndLabels == old(nameAndLabels) + (if old(hasLabel) then "]" else "")
      ensures hasLabel == old(hasLabel)
      ensures s == nameAndLabels
    {
      if hasLabel {
        nameAndLabels := nameAndLabels + "]";
      }
      steps := steps + [Closed];
      assert steps[..|steps| - 1] == old(steps);
      s := nameAndLabels;
    }
  }

  /** After labels e1..en and no toString the buffer is `base[k1=v1,...,kn=vn`, and the flag says whether n > 0. */
  lemma {:induction false} BufferAfterAdds(base: string, es: seq<Entry>)
    ensures BufferAfter(base, Adds(es)) == Open(base, es)
    ensures FlagAfter(Adds(es)) == (es != [])
  {
    if es != [] {
      var n := |es| - 1;
      var prior := es[..n];
      assert Adds(es)[..n] == Adds(prior);
      assert Adds(es)[n] == Added(es[n]);
      BufferAfterAdds(base, prior);
      if prior == [] {
        assert Tokens(es) == [Token(es[0])];
      } else {
        assert es == prior + [es[n]];
        OpenSnoc(base, prior, es[n]);
      }
    }
  }

  /** One more label writes `,` and its token after the unclosed name. */
  lemma OpenSnoc(base: string, prior: seq<Entry>, e: Entry)
    requires prior != []
    ensures Open(base, prior + [e]) == Open(base, prior) + "," + Token(e)
  {
    assert Tokens(prior + [e]) == Tokens(prior) + [Token(e)];
    JoinSnoc(Tokens(prior), Token(e), ',');
  }

  /** The first toString after the labels returns the canonical name. */
  lemma FirstToString(base: string, es: seq<Entry>)
    ensures BufferAfter(base, Adds(es) + [Closed]) == Canonical(base, es)
  {
    BufferAfterAdds(base, es);
    assert (Adds(es) + [Closed])[..|es|] == Adds(es);
  }

  /**
   * With a label present every toString adds one more `]`, so a second call
   * differs from the first and returns a name that is no longer labeled.
   */
  lemma ToStringNotIdempotent(base: string, es: seq<Entry>)
    requires es != []
    ensures BufferAfter(base, Adds(es) + [Closed, Closed]) == Canonical(base, es) + "]"
    ensures !HasLabel(BufferAfter(base, Adds(es) + [Closed, Closed]))
  {
    FirstToString(base, es);
    BufferAfterAdds(base, es);
    var once := Adds(es) + [Closed];
    assert (Adds(es) + [Closed, Closed])[..|once|] == once;
    assert once[..|es|] == Adds(es);
    DoublyClosed(Canonical(base, es));
  }

  /** A name that ends in `]` and gets one more has two and is not labeled. */
  lemma DoublyClosed(c: string)
    requires |c| >= 1 && c[|c| - 1] == ']'
    ensures !HasLabel(c + "]")
  {
    var s := c + "]";
    assert s[|c| - 1] == ']' && s[|s| - 1] == ']';
  }

  /** Without labels toString leaves the buffer as it is, however often it is called. */
  lemma ToStringWithoutLabels(base: string, steps: seq<Step>)
    requires !FlagAfter(steps)
    ensures BufferAfter(base, steps + [Closed]) == BufferAfter(base, steps)
    ensures !FlagAfter(steps + [Closed])
  {
    assert (steps + [Closed])[..|steps|] == steps;
  }

  // ---------------------------------------------------------------------
  // The decoder

  /** One token split on `=` as Java does; exactly two parts make a label. */
  function ParseToken(t: string): (r: Option<Entry>)
    ensures r.Some? ==> '=' !in r.value.key && '=' !in r.value.value && r.value.value != ""
    ensures '=' !in t ==> r == None
  {
    var kv := Split(t, '=');
    if |kv| == 2 then Some(Entry(kv[0], kv[1])) else None
  }

  /** A label a token can yield: no `=` in key or value, and a value that is not empty. */
  predicate Parsable(e: Entry)
  {
    '=' !in e.key && '=' !in e.value && e.value != ""
  }

  /** A token that parses is its key, `=`, its value and nothing but `=` after that. */
  lemma ParsedTokenShape(t: string) returns (n: nat)
    requires ParseToken(t).Some?
    ensures Parsable(ParseToken(t).value)
    ensures t == Token(ParseToken(t).value) + Repeat('=', n)
  {
    var kv := Split(t, '=');
    var e := ParseToken(t).value;
    assert kv == [e.key, e.value];
    assert kv[0] in kv && kv[1] in kv;
    var ps := Pieces(t, '=');
    assert '=' in t;
    n := |ps| - 2;
    assert ps == kv + Empties(n);
    JoinPieces(t, '=');
    JoinEmpties(kv, n, '=');
    assert Join(kv, '=') == Token(e);
  }

  /** The pieces of `k=v` followed by n `=` are k, v and n empty strings. */
  lemma TokenPieces(e: Entry, n: nat)
    requires Parsable(e)
    ensures Pieces(Token(e) + Repeat('=', n), '=') == [e.key, e.value] + Empties(n)
  {
    var kv := [e.key, e.value];
    var ps := kv + Empties(n);
    JoinEmpties(kv, n, '=');
    assert Join(kv, '=') == Token(e);
    forall p | p in ps ensures '=' !in p {
    }
    PiecesJoin(ps, '=');
  }

  /** `k=v`, followed by any number of `=`, parses to k and v when neither has `=` and v is not empty. */
  lemma ParsesToken(e: Entry, n: nat)
    requires Parsable(e)
    ensures ParseToken(Token(e) + Repeat('=', n)) == Some(e)
  {
    var t := Token(e) + Repeat('=', n);
    var kv := [e.key, e.value];
    TokenPieces(e, n);
    assert t[|e.key|] == '=';
    DropEmpties(kv, n);
    assert Split(t, '=') == kv;
  }

  /** A token decodes to a label exactly when it is `k=v` followed by any number of `=`: "a=b=" is `a`=`b`, "k=" is nothing. */
  lemma ParseTokenExact(t: string, e: Entry)
    ensures ParseToken(t) == Some(e) <==> Parsable(e) && exists n: nat :: t == Token(e) + Repeat('=', n)
  {
    if ParseToken(t) == Some(e) {
      var n := ParsedTokenShape(t);
    }
    if Parsable(e) && exists n: nat :: t == Token(e) + Repeat('=', n) {
      var n: nat :| t == Token(e) + Repeat('=', n);
      ParsesToken(e, n);
    }
  }

  function Keys(m: seq<Entry>): seq<string>
  {
    seq(|m|, i requires 0 <= i < |m| => m[i].key)
  }

  predicate Distinct(xs: seq<string>)
  {
    forall i, j :: 0 <= i < j < |xs| ==> xs[i] != xs[j]
  }

  /** `get` on a LinkedHashMap kept as its entries in insertion order. */
  function Lookup(m: seq<Entry>, k: string): Option<string>
  {
    if m == [] then None else if m[0].key == k then Some(m[0].value) else Lookup(m[1..], k)
  }

  lemma KeysCons(e: Entry, m: seq<Entry>)
    ensures Keys([e] + m) == [e.key] + Keys(m)
  {
  }

  /** `put` on a LinkedHashMap: a present key keeps its place, a new key goes last. */
  function Put(m: seq<Entry>, k: string, v: string): (r: seq<Entry>)
    ensures Keys(r) == if k in Keys(m) then Keys(m) else Keys(m) + [k]
    ensures k !in Keys(m) ==> r == m + [Entry(k, v)]
  {
    if m == [] then [Entry(k, v)]
    else
      var head, tail := m[0], m[1..];
      assert m == [head] + tail;
      KeysCons(head, tail);
      if head.key == k then
        var r := [Entry(k, v)] + tail;
        KeysCons(Entry(k, v), tail);
        r
      else
        var rest := Put(tail, k, v);
        var r := [head] + rest;
        KeysCons(head, rest);
        assert k in Keys(m) <==> k in Keys(tail);
        r
  }

  /** After `put`, the key maps to the new value and every other key to what it mapped to before. */
  lemma {:induction false} PutLookup(m: seq<Entry>, k: string, v: string)
    ensures Lookup(Put(m, k, v), k) == Some(v)
    ensures forall k' :: k' != k ==> Lookup(Put(m, k, v), k') == Lookup(m, k')
  {
    if m != [] && m[0].key != k {
      var rest := Put(m[1..], k, v);
      assert Put(m, k, v) == [m[0]] + rest;
      assert ([m[0]] + rest)[1..] == rest;
      PutLookup(m[1..], k, v);
    }
  }

  /** `put` keeps the keys distinct. */
  lemma PutDistinct(m: seq<Entry>, k: string, v: string)
    requires Distinct(Keys(m))
    ensures Distinct(Keys(Put(m, k, v)))
  {
  }

  /** The map after putting the entries in order. */
  function PutAll(es: seq<Entry>): seq<Entry>
  {
    if es == [] then []
    else Put(PutAll(es[..|es| - 1]), es[|es| - 1].key, es[|es| - 1].value)
  }

  /** The keys in the order of their first occurrence. */
  function FirstOccurrences(xs: seq<string>): (r: seq<string>)
    ensures forall x :: x in r <==> x in xs
  {
    if xs == [] then []
    else
      var prior := xs[..|xs| - 1];
      var x := xs[|xs| - 1];
      assert xs == prior + [x];
      if x in prior then FirstOccurrences(prior) else FirstOccurrences(prior) + [x]
  }

  /** The value of the last entry with key k. */
  function LastValue(es: seq<Entry>, k: string): Option<string>
  {
    if es == [] then None
    else if es[|es| - 1].key == k then Some(es[|es| - 1].value)
    else LastValue(es[..|es| - 1], k)
  }

  /** A repeated key keeps its first position and takes its last value. */
  lemma {:induction false} PutAllMeaning(es: seq<Entry>)
    ensures Distinct(Keys(PutAll(es)))
    ensures Keys(PutAll(es)) == FirstOccurrences(Keys(es))
    ensures forall k :: Lookup(PutAll(es), k) == LastValue(es, k)
  {
    if es != [] {
      var n := |es| - 1;
      var m := PutAll(es[..n]);
      assert PutAll(es) == Put(m, es[n].key, es[n].value);
      PutAllMeaning(es[..n]);
      PutLookup(m, es[n].key, es[n].value);
      PutDistinct(m, es[n].key, es[n].value);
      assert Keys(es)[..n] == Keys(es[..n]);
      assert Keys(es)[n] == es[n].key;
    }
  }

  /** The keys of a prefix are a prefix of the keys. */
  lemma KeysPrefix(es: seq<Entry>, n: nat)
    requires n <= |es|
    ensures Keys(es[..n]) == Keys(es)[..n]
  {
  }

  /** A prefix of a distinct list is distinct and does not hold the next element. */
  lemma DistinctPrefix(xs: seq<string>, n: nat)
    requires Distinct(xs) && n < |xs|
    ensures Distinct(xs[..n]) && xs[n] !in xs[..n]
  {
    forall j | 0 <= j < n ensures xs[..n][j] != xs[n] {
      assert xs[j] != xs[n];
    }
  }

  /** With distinct keys nothing is overwritten: the map is the entries themselves. */
  lemma {:induction false} PutAllDistinct(es: seq<Entry>)
    requires Distinct(Keys(es))
    ensures PutAll(es) == es
  {
    if es != [] {
      var n := |es| - 1;
      var prior, e := es[..n], es[n];
      assert es == prior + [e];
      NewLastKey(es);
      PutAllDistinct(prior);
      PutAllSnoc(prior, e);
    }
  }

  /** Without its last entry a list with distinct keys keeps them distinct, and lacks the last key. */
  lemma NewLastKey(es: seq<Entry>)
    requires es != [] && Distinct(Keys(es))
    ensures Distinct(Keys(es[..|es| - 1]))
    ensures es[|es| - 1].key !in Keys(es[..|es| - 1])
  {
    var n := |es| - 1;
    KeysPrefix(es, n);
    DistinctPrefix(Keys(es), n);
  }

  function Parsed(ts: seq<string>): seq<Entry>
    requires forall i :: 0 <= i < |ts| ==> ParseToken(ts[i]).Some?
  {
    seq(|ts|, i requires 0 <= i < |ts| && ParseToken(ts[i]).Some? => ParseToken(ts[i]).value)
  }

  /** The tokens decode when every one of them parses; the labels are then put in token order. */
  function DecodeTokens(ts: seq<string>): Option<seq<Entry>>
  {
    if forall i :: 0 <= i < |ts| ==> ParseToken(ts[i]).Some? then Some(PutAll(Parsed(ts))) else None
  }

  /** `extractLabels` as a value. */
  function ExtractedLabels(name: string): (r: Result<seq<Entry>>)
    ensures !HasLabel(name) ==> r == Ok([])
    ensures r.Err? <==> HasLabel(name) && exists t :: t in Split(Body(name), ',') && ParseToken(t).None?
    ensures r.Err? ==> r.error == InvalidMetricName(name)
    ensures r.Ok? ==> Distinct(Keys(r.value))
  {
    if !HasLabel(name) then Ok([])
    else
      var ts := Split(Body(name), ',');
      match DecodeTokens(ts)
      case None =>
        assert exists i :: 0 <= i < |ts| && ParseToken(ts[i]).None?;
        Err(InvalidMetricName(name))
      case Some(m) =>
        PutAllMeaning(Parsed(ts));
        Ok(m)
  }

  /** Putting one more entry. */
  lemma PutAllSnoc(es: seq<Entry>, e: Entry)
    ensures PutAll(es + [e]) == Put(PutAll(es), e.key, e.value)
  {
    assert (es + [e])[..|es|] == es;
  }

  /** Parsing one more token. */
  lemma ParsedSnoc(ts: seq<string>, i: nat)
    requires i < |ts|
    requires forall j :: 0 <= j <= i ==> ParseToken(ts[j]).Some?
    ensures Parsed(ts[..i + 1]) == Parsed(ts[..i]) + [ParseToken(ts[i]).value]
  {
  }

  /** `extractLabels`: split the bracket body on `,`, each token on `=`, and fill the map in token order. */
  method ExtractLabels(name: string) returns (r: Result<seq<Entry>>)
    ensures r == ExtractedLabels(name)
  {
    if !HasLabel(name) {
      return Ok([]);
    }
    var labelString := name[IndexOf(name, '[') + 1..LastIndexOf(name, ']')];
    assert labelString == Body(name);
    var labels: seq<Entry> := [];
    var tokens := Split(labelString, ',');
    var i := 0;
    while i < |tokens|
      invariant 0 <= i <= |tokens|
      invariant forall j :: 0 <= j < i ==> ParseToken(tokens[j]).Some?
      invariant labels == PutAll(Parsed(tokens[..i]))
    {
      var keyValue := Split(tokens[i], '=');
      if |keyValue| != 2 {
        ExtractedErr(name, tokens, i);
        return Err(InvalidMetricName(name));
      }
      DecodeStep(tokens, i);
      assert ParseToken(tokens[i]) == Some(Entry(keyValue[0], keyValue[1]));
      labels := Put(labels, keyValue[0], keyValue[1]);
      i := i + 1;
    }
    ExtractedOk(name, tokens);
    assert tokens[..i] == tokens;
    return Ok(labels);
  }

  /** One more token that parses puts one more label. */
  lemma DecodeStep(ts: seq<string>, i: nat)
    requires i < |ts|
    requires forall j :: 0 <= j <= i ==> ParseToken(ts[j]).Some?
    ensures PutAll(Parsed(ts[..i + 1])) ==
              Put(PutAll(Parsed(ts[..i])), ParseToken(ts[i]).value.key, ParseToken(ts[i]).value.value)
  {
    ParsedSnoc(ts, i);
    PutAllSnoc(Parsed(ts[..i]), ParseToken(ts[i]).value);
  }

  /** A labeled name whose i-th token does not parse is refused. */
  lemma ExtractedErr(name: string, ts: seq<string>, i: nat)
    requires HasLabel(name) && ts == Split(Body(name), ',')
    requires i < |ts| && |Split(ts[i], '=')| != 2
    ensures ExtractedLabels(name) == Err(InvalidMetricName(name))
  {
    assert ts[i] in ts;
  }

  /** A labeled name whose tokens all parse decodes to the map they build. */
  lemma ExtractedOk(name: string, ts: seq<string>)
    requires HasLabel(name) && ts == Split(Body(name), ',')
    requires forall j :: 0 <= j < |ts| ==> ParseToken(ts[j]).Some?
    ensures ExtractedLabels(name) == Ok(PutAll(Parsed(ts)))
  {
  }

  // ---------------------------------------------------------------------
  // Round trip

  /** A label that decodes back to itself: no bracket, `,` or `=` in key or value, and a non-empty value. */
  predicate Plain(e: Entry)
  {
    && NoBrackets(e.key) && NoBrackets(e.value)
    && ',' !in e.key && ',' !in e.value
    && Parsable(e)
  }

  /** The tokens of plain labels have no bracket and no `,`, and their last character is reachable past a `=`. */
  lemma PlainTokens(es: seq<Entry>)
    requires forall i :: 0 <= i < |es| ==> Plain(es[i])
    ensures forall p :: p in Tokens(es) ==> NoBrackets(p) && ',' !in p && p != ""
  {
    var ts := Tokens(es);
    forall p | p in ts ensures NoBrackets(p) && ',' !in p && p != "" {
      var i :| 0 <= i < |ts| && ts[i] == p;
      assert p == es[i].key + "=" + es[i].value;
    }
  }

  /** Splitting the joined tokens of plain labels on `,` gives the tokens back. */
  lemma SplitJoinedTokens(es: seq<Entry>)
    requires es != []
    requires forall i :: 0 <= i < |es| ==> Plain(es[i])
    ensures NoBrackets(Join(Tokens(es), ','))
    ensures Split(Join(Tokens(es), ','), ',') == Tokens(es)
  {
    var ts := Tokens(es);
    PlainTokens(es);
    JoinAvoids(ts, ',', '[');
    JoinAvoids(ts, ',', ']');
    PiecesJoin(ts, ',');
    assert ts[|ts| - 1] in ts;
    SplitKeepsAll(Join(ts, ','), ',');
  }

  /** Every token of a plain label parses back to that label. */
  lemma ParsedTokens(es: seq<Entry>)
    requires forall i :: 0 <= i < |es| ==> Plain(es[i])
    ensures forall i :: 0 <= i < |Tokens(es)| ==> ParseToken(Tokens(es)[i]) == Some(es[i])
    ensures Parsed(Tokens(es)) == es
  {
    var ts := Tokens(es);
    forall i | 0 <= i < |ts| ensures ParseToken(ts[i]) == Some(es[i]) {
      ParsesToken(es[i], 0);
      assert ts[i] == Token(es[i]) + Repeat('=', 0);
    }
  }

  /** The canonical name of a bracket-free base and plain labels decodes to the map that putting them in order builds. */
  lemma DecodeCanonical(base: string, es: seq<Entry>)
    requires |base| >= 1 && NoBrackets(base)
    requires forall i :: 0 <= i < |es| ==> Plain(es[i])
    ensures HasLabel(Canonical(base, es)) <==> es != []
    ensures ExtractedLabels(Canonical(base, es)) == Ok(PutAll(es))
  {
    if es == [] {
      assert IndexOf(base, '[') == -1;
    } else {
      var body := Join(Tokens(es), ',');
      SplitJoinedTokens(es);
      PartsLabeled(base, body);
      ParsedTokens(es);
      assert DecodeTokens(Tokens(es)) == Some(PutAll(es));
    }
  }

  /** With distinct keys the canonical name decodes to exactly its labels, in order. */
  lemma RoundTrip(base: string, es: seq<Entry>)
    requires |base| >= 1 && NoBrackets(base)
    requires forall i :: 0 <= i < |es| ==> Plain(es[i])
    requires Distinct(Keys(es))
    ensures HasLabel(Canonical(base, es)) <==> es != []
    ensures ExtractedLabels(Canonical(base, es)) == Ok(es)
  {
    DecodeCanonical(base, es);
    PutAllDistinct(es);
  }

  /** A key written twice is decoded once, at its first place, with its last value: `m[a=1,a=2]` is `a`=`2`. */
  lemma RepeatedKeys(base: string, es: seq<Entry>)
    requires |base| >= 1 && NoBrackets(base)
    requires forall i :: 0 <= i < |es| ==> Plain(es[i])
    ensures ExtractedLabels(Canonical(base, es)).Ok?
    ensures Keys(ExtractedLabels(Canonical(base, es)).value) == FirstOccurrences(Keys(es))
    ensures forall k :: Lookup(ExtractedLabels(Canonical(base, es)).value, k) == LastValue(es, k)
  {
    DecodeCanonical(base, es);
    PutAllMeaning(es);
  }

  /** An empty key decodes: `m[=v]` is the label with key "" and value v. */
  lemma EmptyKeyDecodes(base: string, v: string)
    requires |base| >= 1 && NoBrackets(base)
    requires Plain(Entry("", v))
    ensures Canonical(base, [Entry("", v)]) == base + "[=" + v + "]"
    ensures ExtractedLabels(base + "[=" + v + "]") == Ok([Entry("", v)])
  {
    var es := [Entry("", v)];
    var t := Token(es[0]);
    assert t == "=" + v;
    var ts := Tokens(es);
    assert |ts| == 1 && ts[0] == t;
    assert Join(ts, ',') == t;
    assert Canonical(base, es) == base + "[=" + v + "]";
    assert Distinct(Keys(es));
    RoundTrip(base, es);
  }

  /** What a builder's first toString returns decodes to the labels it was given. */
  lemma BuiltNameDecodes(base: string, es: seq<Entry>)
    requires |base| >= 1 && NoBrackets(base)
    requires forall i :: 0 <= i < |es| ==> Plain(es[i])
    requires Distinct(Keys(es))
    ensures HasLabel(BufferAfter(base, Adds(es) + [Closed])) <==> es != []
    ensures ExtractedLabels(BufferAfter(base, Adds(es) + [Closed])) == Ok(es)
  {
    FirstToString(base, es);
    RoundTrip(base, es);
  }

  // ---------------------------------------------------------------------
  // Names the decoder refuses or trims

  /** A name is decoded when every token of its body parses. */
  lemma DecodesBody(name: string, base: string, body: string, ts: seq<string>)
    requires name == base + "[" + body + "]"
    requires |base| >= 1 && NoBrackets(base) && NoBrackets(body)
    requires Split(body, ',') == ts
    requires forall i :: 0 <= i < |ts| ==> ParseToken(ts[i]).Some?
    ensures ExtractedLabels(name) == Ok(PutAll(Parsed(ts)))
  {
    PartsLabeled(base, body);
  }

  /** A name is refused as soon as one token of its body does not parse. */
  lemma RejectsToken(name: string, base: string, body: string, t: string)
    requires name == base + "[" + body + "]"
    requires |base| >= 1 && NoBrackets(base) && NoBrackets(body)
    requires t in Split(body, ',') && ParseToken(t).None?
    ensures ExtractedLabels(name) == Err(InvalidMetricName(name))
  {
    PartsLabeled(base, body);
  }

  /** A token with no `=` is refused: `m[key1]`, and `m[]` with the empty token. */
  lemma RejectsBareKey(base: string, k: string)
    requires |base| >= 1 && NoBrackets(base) && NoBrackets(k)
    requires ',' !in k && '=' !in k
    ensures ExtractedLabels(base + "[" + k + "]") == Err(InvalidMetricName(base + "[" + k + "]"))
  {
    assert Split(k, ',') == [k];
    assert ParseToken(k).None?;
    RejectsToken(base + "[" + k + "]", base, k, k);
  }

  /** When k has no `=`, `k=` splits on `=` to `[k]` alone, so it is no label. */
  lemma EmptyValueToken(k: string)
    requires '=' !in k
    ensures ParseToken(k + "=").None?
  {
    var t := k + "=";
    assert Join([k, ""], '=') == t;
    PiecesJoin([k, ""], '=');
    assert t[|k|] == '=';
    assert [k, ""][..1] == [k];
  }

  /** An empty value is refused, because split drops it: `m[k=]`. */
  lemma RejectsEmptyValue(base: string, k: string)
    requires |base| >= 1 && NoBrackets(base) && NoBrackets(k)
    requires ',' !in k && '=' !in k
    ensures ExtractedLabels(base + "[" + k + "=]") == Err(InvalidMetricName(base + "[" + k + "=]"))
  {
    var t := k + "=";
    assert base + "[" + t + "]" == base + "[" + k + "=]";
    assert ',' !in t && NoBrackets(t);
    assert Split(t, ',') == [t];
    EmptyValueToken(k);
    RejectsToken(base + "[" + k + "=]", base, t, t);
  }

  /** The tokens of plain labels and one more non-empty token, joined by `,`, split back into those tokens. */
  lemma SplitSnoc(es: seq<Entry>, k: string)
    requires forall i :: 0 <= i < |es| ==> Plain(es[i])
    requires es != [] && k != "" && ',' !in k && NoBrackets(k)
    ensures NoBrackets(Join(Tokens(es), ',') + [','] + k)
    ensures Split(Join(Tokens(es), ',') + [','] + k, ',') == Tokens(es) + [k]
  {
    var ts := Tokens(es);
    var ps := ts + [k];
    PlainTokens(es);
    JoinSnoc(ts, k, ',');
    assert forall p :: p in ps ==> NoBrackets(p) && ',' !in p;
    JoinAvoids(ps, ',', '[');
    JoinAvoids(ps, ',', ']');
    PiecesJoin(ps, ',');
    SplitKeepsAll(Join(ps, ','), ',');
  }

  /** One token that does not parse refuses the whole name, wherever it stands: `m[key1=val1,key2]`. */
  lemma RejectsLaterBareKey(base: string, es: seq<Entry>, k: string)
    requires |base| >= 1 && NoBrackets(base) && NoBrackets(k)
    requires forall i :: 0 <= i < |es| ==> Plain(es[i])
    requires es != [] && k != "" && ',' !in k && '=' !in k
    ensures ExtractedLabels(Open(base, es) + "," + k + "]") == Err(InvalidMetricName(Open(base, es) + "," + k + "]"))
  {
    var ts := Tokens(es);
    var body := Join(ts, ',') + [','] + k;
    var name := Open(base, es) + "," + k + "]";
    assert Open(base, es) == base + "[" + Join(ts, ',');
    assert name == base + "[" + body + "]";
    SplitSnoc(es, k);
    assert k in Split(body, ',') by {
      assert k == (ts + [k])[|ts|];
    }
    assert Split(k, '=') == [k];
    RejectsToken(name, base, body, k);
  }

  /** Trailing `,` after the joined tokens of plain labels split away. */
  lemma SplitTrailingCommas(es: seq<Entry>, n: nat)
    requires forall i :: 0 <= i < |es| ==> Plain(es[i])
    requires es != []
    ensures NoBrackets(Join(Tokens(es), ',') + Repeat(',', n))
    ensures Split(Join(Tokens(es), ',') + Repeat(',', n), ',') == Tokens(es)
  {
    var ts := Tokens(es);
    var ps := ts + Empties(n);
    var body := Join(ts, ',') + Repeat(',', n);
    PlainTokens(es);
    JoinEmpties(ts, n, ',');
    assert forall p :: p in ps ==> NoBrackets(p) && ',' !in p;
    JoinAvoids(ps, ',', '[');
    JoinAvoids(ps, ',', ']');
    if n == 0 {
      SplitJoinedTokens(es);
      assert body == Join(ts, ',');
    } else {
      PiecesJoin(ps, ',');
      assert body[|body| - 1] == ',';
      assert ts[|ts| - 1] in ts;
      DropEmpties(ts, n);
    }
  }

  /** Every trailing empty piece of the body is ignored: `m[a=b,,]` is `a`=`b`. */
  lemma IgnoresTrailingCommas(base: string, es: seq<Entry>, n: nat)
    requires |base| >= 1 && NoBrackets(base)
    requires forall i :: 0 <= i < |es| ==> Plain(es[i])
    requires es != []
    ensures ExtractedLabels(Open(base, es) + Repeat(',', n) + "]") == Ok(PutAll(es))
  {
    var joined := Join(Tokens(es), ',');
    var commas := Repeat(',', n);
    var body := joined + commas;
    var name := Open(base, es) + commas + "]";
    assert Open(base, es) == base + "[" + joined;
    Regroup(base + "[", joined, commas, "]");
    SplitTrailingCommas(es, n);
    DecodesPlainBody(name, base, body, es);
  }

  /** Concatenation regrouped. */
  lemma Regroup(a: string, b: string, c: string, d: string)
    ensures a + b + c + d == a + (b + c) + d
  {
  }

  /** A name whose body splits into the tokens of plain labels decodes to the map they build. */
  lemma DecodesPlainBody(name: string, base: string, body: string, es: seq<Entry>)
    requires name == base + "[" + body + "]"
    requires |base| >= 1 && NoBrackets(base) && NoBrackets(body)
    requires forall i :: 0 <= i < |es| ==> Plain(es[i])
    requires Split(body, ',') == Tokens(es)
    ensures ExtractedLabels(name) == Ok(PutAll(es))
  {
    ParsedTokens(es);
    DecodesBody(name, base, body, Tokens(es));
  }
}
