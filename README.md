# Labeled metric names, verified

This project models the core of *label-supported-dropwizard-metrics*, a small
library that lets a Dropwizard metric carry labels. A labeled metric name holds
the metric name and its labels in one string, `base[k1=v1,k2=v2]`. The library
has two halves:

- `LabeledMetric` has a builder that writes such names. `label` appends
  `[k=v` or `,k=v`, `labels` calls `label` once per entry and `toString` closes
  the bracket. The class also decodes names: `hasLabel` tests their shape and
  `extractLabels` turns a name back into an ordered key/value map.
- `LabelSupportedObjectNameFactory` turns a labeled name into a JMX object name,
  `domain:name=<base>,<k1>=<v1>,...`. It quotes the domain when JMX would read
  the domain as a pattern or refuses it.

Modules:

- `JavaStrings` models `String.indexOf`, `lastIndexOf` and `split` with the
  JDK's rules for a one-character delimiter. A string without the delimiter
  splits to itself, and trailing empty pieces are dropped.
- `Outcomes` holds the exceptions as values (`Error`) and the `Result` and
  `Outcome` wrappers.
- `Labeled` holds the `LabeledMetric` class, with its `nameAndLabels` buffer as a
  string field and its `hasLabel` flag. A ghost history of the successful calls
  lets every method state the new buffer. The module also holds `hasLabel` and
  `extractLabels`. The decoder is a method with the Java loop. It is proved equal
  to a specification function, and that function's properties are proved as
  lemmas.
- `JmxQuote` models `ObjectName.quote` as its documentation describes it, and
  `ObjectName.unquote` as its inverse.
- `ObjectNames` holds the factory's `extractMetricName`, its raw `extractLabels`,
  the text `createName` builds, and the retry logic of `quoteDomainIfRequired`.

The factory has a private copy of `hasLabel`
(LabelSupportedObjectNameFactory.java:88-93) with the same return expression as
LabeledMetric.java:52-57. Only the signatures differ (`private boolean` against
`public static boolean`). It is defined once, as `Labeled.HasLabel`.

The format comment at LabeledMetric.java:10-11 gives names as
`metric-name[label1=value1,label2=value2]`. Where a reader of that comment might
expect something the code does not do, the model follows the code:

- `m[k=]` is refused. `"k=".split("=")` is `["k"]`, a single part.
- `toString` is not idempotent. With a label present each call appends another
  `]`, and the second result is no longer a labeled name.
- The decoder's round trip needs fewer conditions than one might expect:
  - the base is non-empty and has no brackets;
  - the keys are distinct;
  - keys and values contain none of `[ ] , =`;
  - the values are non-empty.

  Empty keys decode (`m[=v]`). Reserved keys decode too; only the builder refuses
  them.

## Model

| member | source | states |
|---|---|---|
| Labeled.HasLabel | src/main/java/ir/sahab/dropwizardmetrics/LabeledMetric.java:52-57 | `hasLabel` as the four index clauses of the code. A labeled name has at least three characters, ends in `]` and does not start with `[`. HasLabelShape gives the full meaning, in both directions. |
| Labeled.HasLabelShape | src/main/java/ir/sahab/dropwizardmetrics/LabeledMetric.java:52-57 | The four-clause index test holds exactly when the only `[` is at an index i >= 1 and the only `]` is the last character, after it. So it is false for "" and for any name starting with `[`. |
| Labeled.LabeledParts | src/main/java/ir/sahab/dropwizardmetrics/LabeledMetric.java:52-57 | A labeled name is a bracket-free base, `[`, a bracket-free body and a final `]`. |
| Labeled.PartsLabeled | src/main/java/ir/sahab/dropwizardmetrics/LabeledMetric.java:52-57 | Conversely `base[body]` is labeled for any non-empty base when no part has a bracket. `[` is then found at index `|base|` and the body is recovered. |
| Labeled.Body | src/main/java/ir/sahab/dropwizardmetrics/LabeledMetric.java:67 | The substring between `[` and the last `]` of a labeled name has no bracket. |
| JavaStrings.IndexOf | src/main/java/ir/sahab/dropwizardmetrics/LabeledMetric.java:54 | `indexOf(c)` is -1 exactly when c is absent. Otherwise it is the position of c with no c before it. |
| JavaStrings.LastIndexOf | src/main/java/ir/sahab/dropwizardmetrics/LabeledMetric.java:53 | `lastIndexOf(c)` is -1 exactly when c is absent. Otherwise it is the position of c with no c after it. |
| JavaStrings.Split | src/main/java/ir/sahab/dropwizardmetrics/LabeledMetric.java:70-71 | Without the delimiter the result is the input alone. Otherwise it is the list of pieces between delimiters with only empty pieces cut from its end, and the last kept piece is non-empty. No piece holds the delimiter. |
| JavaStrings.SplitKeepsAll | src/main/java/ir/sahab/dropwizardmetrics/LabeledMetric.java:70 | When the last piece is non-empty, split keeps every piece. |
| JavaStrings.SplitDropsEmptyValue | src/main/java/ir/sahab/dropwizardmetrics/LabeledMetric.java:71 | `"k=".split("=")` is `["k"]`. |
| JavaStrings.SplitKeepsEmptyKey | src/main/java/ir/sahab/dropwizardmetrics/LabeledMetric.java:71 | `"=v".split("=")` is `["", "v"]`. |
| JavaStrings.SplitDropsTrailingTokens | src/main/java/ir/sahab/dropwizardmetrics/LabeledMetric.java:70 | `"a=b,,".split(",")` is `["a=b"]`. |
| Labeled.LabeledMetric.constructor | src/main/java/ir/sahab/dropwizardmetrics/LabeledMetric.java:18-21 | A new builder holds the metric name with the flag unset and an empty history. |
| Labeled.LabeledMetric.Label | src/main/java/ir/sahab/dropwizardmetrics/LabeledMetric.java:27-40 | `name` or `type` fails with ReservedLabelKey and changes neither buffer nor flag. Any other key appends `[` for the first label or `,` after that, then `key=value`, and sets the flag. |
| Labeled.LabeledMetric.Labels | src/main/java/ir/sahab/dropwizardmetrics/LabeledMetric.java:42-47 | The history grows by exactly the entries before the first reserved key, in order. The result is Pass when there is no reserved key, and otherwise the error for the first one. |
| Labeled.FirstReserved | src/main/java/ir/sahab/dropwizardmetrics/LabeledMetric.java:43-44 | No entry before the returned index has a reserved key, and the entry at it does (or it is the end). |
| Labeled.LabeledMetric.ToString | src/main/java/ir/sahab/dropwizardmetrics/LabeledMetric.java:83-88 | Each call appends `]` exactly when the flag is set and returns the whole buffer. The flag is unchanged. |
| Labeled.BufferAfterAdds | src/main/java/ir/sahab/dropwizardmetrics/LabeledMetric.java:32-38 | After labels e1..en and no toString the buffer is `base[k1=v1,...,kn=vn`, and the flag is set exactly when n > 0. |
| Labeled.FirstToString | src/main/java/ir/sahab/dropwizardmetrics/LabeledMetric.java:83-88 | The first toString after the labels returns `base[k1=v1,...,kn=vn]`, or `base` when there are none. |
| Labeled.ToStringNotIdempotent | src/main/java/ir/sahab/dropwizardmetrics/LabeledMetric.java:83-88 | With a label present a second toString returns the first result plus `]`. hasLabel rejects that name. |
| Labeled.ToStringWithoutLabels | src/main/java/ir/sahab/dropwizardmetrics/LabeledMetric.java:83-88 | Without labels toString leaves the buffer and the flag as they are. |
| Labeled.ParseToken | src/main/java/ir/sahab/dropwizardmetrics/LabeledMetric.java:71-72 | The label a `,`-token yields, if any. A yielded key and value have no `=`, and the value is non-empty. A token without `=` yields nothing. ParseTokenExact says exactly which tokens yield which label. |
| Labeled.ParseTokenExact | src/main/java/ir/sahab/dropwizardmetrics/LabeledMetric.java:71-73 | A token yields label (k, v) exactly when it is `k=v` followed by any number of `=`, with no `=` in k or v and v non-empty. |
| Labeled.ParsedTokenShape | src/main/java/ir/sahab/dropwizardmetrics/LabeledMetric.java:71-73 | A token that yields a label is that label's `k=v` followed only by `=` characters. |
| Labeled.ParsesToken | src/main/java/ir/sahab/dropwizardmetrics/LabeledMetric.java:71-73 | `k=v` followed by any number of `=` yields (k, v) when neither has `=` and v is non-empty. |
| Labeled.EmptyValueToken | src/main/java/ir/sahab/dropwizardmetrics/LabeledMetric.java:71-75 | A token `k=` yields no label when k has no `=`. |
| Labeled.Put | src/main/java/ir/sahab/dropwizardmetrics/LabeledMetric.java:73 | `LinkedHashMap.put`: a present key keeps its position, and a new key is appended with its value. |
| Labeled.PutLookup | src/main/java/ir/sahab/dropwizardmetrics/LabeledMetric.java:73 | After `put` the key maps to the new value and every other key is unchanged. |
| Labeled.PutDistinct | src/main/java/ir/sahab/dropwizardmetrics/LabeledMetric.java:73 | `put` keeps the keys distinct. |
| Labeled.PutAll | src/main/java/ir/sahab/dropwizardmetrics/LabeledMetric.java:69-77 | The map the loop's successive `put` calls build from the empty `LinkedHashMap`. It has no contract of its own. PutAllMeaning and PutAllDistinct state what the map holds. |
| Labeled.PutAllMeaning | src/main/java/ir/sahab/dropwizardmetrics/LabeledMetric.java:69-77 | Filling the map in order gives distinct keys in order of first occurrence. Each key has the value of its last occurrence. |
| Labeled.PutAllDistinct | src/main/java/ir/sahab/dropwizardmetrics/LabeledMetric.java:69-77 | With distinct keys the map is exactly the entries, in order. |
| Labeled.ExtractedLabels | src/main/java/ir/sahab/dropwizardmetrics/LabeledMetric.java:62-79 | An unlabeled name gives the empty map. A labeled name fails, with InvalidMetricName(name), exactly when some `,`-token of its body does not parse. A result has distinct keys. |
| Labeled.ExtractLabels | src/main/java/ir/sahab/dropwizardmetrics/LabeledMetric.java:62-79 | The Java loop (split on `,`, each token on `=`, put or throw) returns what ExtractedLabels describes. |
| Labeled.DecodeCanonical | src/main/java/ir/sahab/dropwizardmetrics/LabeledMetric.java:62-79 | The built name of plain labels (see Plain) is labeled exactly when there is a label. It decodes to the map those labels build in order. |
| Labeled.RoundTrip | src/main/java/ir/sahab/dropwizardmetrics/LabeledMetric.java:62-79 | With distinct keys the built name decodes to exactly its labels, in insertion order. |
| Labeled.BuiltNameDecodes | src/main/java/ir/sahab/dropwizardmetrics/LabeledMetric.java:27-88 | What a builder's first toString returns decodes to the labels it was given. |
| Labeled.RepeatedKeys | src/main/java/ir/sahab/dropwizardmetrics/LabeledMetric.java:69-77 | A key given twice (`m[a=1,a=2]`) decodes once, at its first position, with its last value. |
| Labeled.EmptyKeyDecodes | src/main/java/ir/sahab/dropwizardmetrics/LabeledMetric.java:70-73 | `m[=v]` decodes to the label with the empty key and value v. |
| Labeled.DecodesBody | src/main/java/ir/sahab/dropwizardmetrics/LabeledMetric.java:67-78 | `base[body]` decodes to the map its parsed tokens build when every token parses. |
| Labeled.RejectsToken | src/main/java/ir/sahab/dropwizardmetrics/LabeledMetric.java:70-76 | `base[body]` is refused with InvalidMetricName as soon as one token of the body does not parse. |
| Labeled.RejectsBareKey | src/main/java/ir/sahab/dropwizardmetrics/LabeledMetric.java:70-76 | A token with no `=` is refused: `m[key1]`, and `m[]` with the empty token. |
| Labeled.RejectsEmptyValue | src/main/java/ir/sahab/dropwizardmetrics/LabeledMetric.java:70-76 | `m[k=]` is refused. |
| Labeled.RejectsLaterBareKey | src/main/java/ir/sahab/dropwizardmetrics/LabeledMetric.java:70-76 | Good labels followed by a bare key (`m[key1=val1,key2]`) are refused with InvalidMetricName of the whole name. |
| Labeled.IgnoresTrailingCommas | src/main/java/ir/sahab/dropwizardmetrics/LabeledMetric.java:70 | Any number of trailing `,` is ignored: `m[a=b,,]` decodes as `a=b`. |
| JmxQuote.Quote | src/main/java/ir/sahab/dropwizardmetrics/LabelSupportedObjectNameFactory.java:71 | The quoted domain starts and ends with `"` and is at least two characters longer than the input. |
| JmxQuote.UnquoteQuote | src/main/java/ir/sahab/dropwizardmetrics/LabelSupportedObjectNameFactory.java:71 | unquote(quote(s)) is s. |
| JmxQuote.QuoteInjective | src/main/java/ir/sahab/dropwizardmetrics/LabelSupportedObjectNameFactory.java:76 | Different domains quote differently. |
| ObjectNames.ExtractMetricName | src/main/java/ir/sahab/dropwizardmetrics/LabelSupportedObjectNameFactory.java:98-103 | An unlabeled name is returned as is. A labeled name gives a non-empty, bracket-free prefix followed in the name by `[`. |
| ObjectNames.ExtractLabels | src/main/java/ir/sahab/dropwizardmetrics/LabelSupportedObjectNameFactory.java:111-117 | An unlabeled name gives "". A labeled name gives the bracket-free text right after the `[` that ends just before the final `]`, unchecked. |
| ObjectNames.Reconstruct | src/main/java/ir/sahab/dropwizardmetrics/LabelSupportedObjectNameFactory.java:98-117 | A labeled name is extractMetricName + `[` + extractLabels + `]`. |
| ObjectNames.ExtractParts | src/main/java/ir/sahab/dropwizardmetrics/LabelSupportedObjectNameFactory.java:98-117 | The two extractors recover base and body from `base[body]`. |
| ObjectNames.ObjectNameText | src/main/java/ir/sahab/dropwizardmetrics/LabelSupportedObjectNameFactory.java:48-52 | The text `createName` parses. It always starts with `domain:name=`, and for an unlabeled name it is `domain:name=<name>`. ObjectNameOfCanonical, BodyVerbatim and EmptyLabelsObjectName give it for labeled names. |
| ObjectNames.ObjectNameOfCanonical | src/main/java/ir/sahab/dropwizardmetrics/LabelSupportedObjectNameFactory.java:48-52 | The object name of a built name is `domain:name=base,k1=v1,...`. `name` comes first and the labels keep their order, as the test at LabelSupportedObjectNameFactoryTest.java:94-106 expects. |
| ObjectNames.BodyVerbatim | src/main/java/ir/sahab/dropwizardmetrics/LabelSupportedObjectNameFactory.java:48-52 | A non-empty body is copied after `,` unchecked. `m[key1]` gives `domain:name=m,key1`, which only the JMX parser can refuse. |
| ObjectNames.EmptyLabelsObjectName | src/main/java/ir/sahab/dropwizardmetrics/LabelSupportedObjectNameFactory.java:48-52 | `m[]` gives `domain:name=m`, with no property added. |
| ObjectNames.DomainDecision | src/main/java/ir/sahab/dropwizardmetrics/LabelSupportedObjectNameFactory.java:63-83 | An accepted domain passes the JMX domain check and is d, quote(d) or quote(quote(d)). It is d itself exactly when d is valid and not a pattern. A failure is InvalidDomain. |
| ObjectNames.QuoteDomainIfRequired | src/main/java/ir/sahab/dropwizardmetrics/LabelSupportedObjectNameFactory.java:63-83 | The try/catch steps give the five-case table: valid non-pattern gives d; quoted when quoting helps; an extra quote when the catch re-quotes an already quoted pattern; and otherwise InvalidDomain with the last domain tried. |
| ObjectNames.CreateName | src/main/java/ir/sahab/dropwizardmetrics/LabelSupportedObjectNameFactory.java:47-58 | A domain failure propagates. Otherwise the result is `domain:name=<base>[,<body>]` when JMX accepts that text, and MalformedObjectName otherwise. Every failure is an AssertionError, never the IllegalArgumentException Dropwizard treats as a duplicate name. |

## Left out

- `LabeledMetric.name(name, names...)` (LabeledMetric.java:23-25) joins its
  parts with Dropwizard's `MetricRegistry.name`, which is not part of this model.
  The constructor takes the joined name.
- javax.management is not part of this model. Three function parameters of
  `QuoteDomainIfRequired` and `CreateName` stand for it:
  - `validDomain`: `new ObjectName(d, "key", "value")` does not throw;
  - `isPattern`: `isDomainPattern()`;
  - `validName`: `new ObjectName(text)` does not throw.
- An object name is represented by the text it is parsed from.
- `ObjectName.quote` follows its published documentation. The JDK code is not
  part of this model.
- Whether JMX refuses `domain:name=m,key1` (the case behind the AssertionError
  expected at LabelSupportedObjectNameFactoryTest.java:121-124) depends on
  `validName`. The model proves only the text handed to it, in
  `ObjectNames.BodyVerbatim`.
- Metric names and label values are never quoted by the code. The quoted value
  expected at LabelSupportedObjectNameFactoryTest.java:81-91 is therefore not
  modelled.
- `labels` takes a `Map`. Its iteration order belongs to the map's class, so the
  model takes the entries as a sequence in iteration order. A sequence may repeat
  a key, which a Java map cannot.
- The builder methods return `this` for chaining. The model returns `Pass` or
  `Fail` instead. An exception's cause is not kept.
  - `InvalidMetricName` and `InvalidDomain` keep the text their message is built
    from (LabeledMetric.java:75, LabelSupportedObjectNameFactory.java:79).
  - `ReservedLabelKey` records the refused key. The Java message
    (LabeledMetric.java:29) is a constant that does not name it.
  - `MalformedObjectName` records the text handed to `new ObjectName`. The Java
    AssertionError (LabelSupportedObjectNameFactory.java:56) takes its message
    and cause from the MalformedObjectNameException, which the model does not
    represent.
- A Dafny `string` is a sequence of Unicode scalar values, and a Java `String`
  is a sequence of UTF-16 code units. Every delimiter here is ASCII, and
  `hasLabel` only compares indices with each other and with the length, so the
  behaviour is the same. A Java string holding an unpaired surrogate has no
  Dafny counterpart, though.
- Java `null` is outside the model, since a Dafny string cannot be null. In Java
  `label(k, null)` writes `k=null` (LabeledMetric.java:38), and `hasLabel(null)`
  or a null label key throws NullPointerException.
- `createName`'s `type` argument is unused by the code, and so by the model.
- There is no concurrency in the core. The JMX reporter, MBean server and
  registration plumbing are outside the core.
