/**
 * The parts of java.lang.String that the labeled-name code relies on:
 * indexOf(char), lastIndexOf(char) and split(String) for a one-character
 * delimiter that is not a regular-expression metacharacter (',' and '='),
 * which the JDK handles on its fast path: the pieces between the
 * delimiters are collected, the input itself is returned when the
 * delimiter does not occur, and trailing empty pieces are dropped.
 */
module JavaStrings {

  /** `s.indexOf(c)`: the first index holding `c`, or -1. */
  function IndexOf(s: string, c: char): (r: int)
    ensures -1 <= r < |s|
    ensures r == -1 <==> c !in s
    ensures 0 <= r ==> s[r] == c && c !in s[..r]
  {
    if |s| == 0 then -1
    else if s[0] == c then 0
    else
      var r := IndexOf(s[1..], c);
      assert s == [s[0]] + s[1..];
      if r == -1 then -1
      else
        assert s[..r + 1] == [s[0]] + s[1..][..r];
        r + 1
  }

  /** `s.lastIndexOf(c)`: the last index holding `c`, or -1. */
  function LastIndexOf(s: string, c: char): (r: int)
    ensures -1 <= r < |s|
    ensures r == -1 <==> c !in s
    ensures 0 <= r ==> s[r] == c && c !in s[r + 1..]
  {
    if |s| == 0 then -1
    else if s[|s| - 1] == c then |s| - 1
    else
      assert s == s[..|s| - 1] + [s[|s| - 1]];
      LastIndexOf(s[..|s| - 1], c)
  }

  /** The first occurrence of `c` is the one right after a `c`-free prefix. */
  lemma IndexOfAfter(a: string, c: char, b: string)
    requires c !in a
    ensures IndexOf(a + [c] + b, c) == |a|
  {
    var s := a + [c] + b;
    assert s[|a|] == c;
    assert s[..|a|] == a;
  }

  /** The last occurrence of `c` is the one right before a `c`-free suffix. */
  lemma LastIndexOfBefore(a: string, c: char, b: string)
    requires c !in b
    ensures LastIndexOf(a + [c] + b, c) == |a|
  {
    var s := a + [c] + b;
    assert s[|a|] == c;
    assert s[|a| + 1..] == b;
  }

  /**
   * Every piece between occurrences of `c`, empty ones included: the list
   * the JDK builds before it drops trailing empty strings.
   */
  function Pieces(s: string, c: char): (r: seq<string>)
    ensures |r| >= 1
    ensures forall p :: p in r ==> c !in p
    decreases |s|
  {
    var i := IndexOf(s, c);
    if i == -1 then [s] else [s[..i]] + Pieces(s[i + 1..], c)
  }

  /** The pieces with `c` written between neighbours: the inverse of Pieces. */
  function Join(ps: seq<string>, c: char): string
  {
    if |ps| == 0 then ""
    else if |ps| == 1 then ps[0]
    else ps[0] + [c] + Join(ps[1..], c)
  }

  lemma {:induction false} JoinPieces(s: string, c: char)
    ensures Join(Pieces(s, c), c) == s
    decreases |s|
  {
    if c in s {
      var i := IndexOf(s, c);
      JoinPiecesStep(s, c);
      JoinPieces(s[i + 1..], c);
      Around(s, i);
    }
  }

  /** Joining the pieces writes the first one, then `c`, then the join of the rest. */
  lemma JoinPiecesStep(s: string, c: char)
    requires c in s
    ensures Join(Pieces(s, c), c) == s[..IndexOf(s, c)] + [c] + Join(Pieces(s[IndexOf(s, c) + 1..], c), c)
  {
    var i := IndexOf(s, c);
    assert i != -1;
    var rest := Pieces(s[i + 1..], c);
    assert |rest| >= 1;
    assert Pieces(s, c) == [s[..i]] + rest;
    JoinCons(s[..i], rest, c);
  }

  /** A string is what comes before index i, the character at i, and what comes after. */
  lemma Around(s: string, i: nat)
    requires i < |s|
    ensures s == s[..i] + [s[i]] + s[i + 1..]
  {
  }

  /** A piece in front of at least one more is written with a `c` after it. */
  lemma JoinCons(p: string, ps: seq<string>, c: char)
    requires |ps| >= 1
    ensures Join([p] + ps, c) == p + [c] + Join(ps, c)
  {
    assert ([p] + ps)[1..] == ps;
  }

  lemma {:induction false} PiecesJoin(ps: seq<string>, c: char)
    requires |ps| >= 1
    requires forall p :: p in ps ==> c !in p
    ensures Pieces(Join(ps, c), c) == ps
  {
    var head := ps[0];
    assert head in ps;
    if |ps| == 1 {
      assert Join(ps, c) == head;
      assert IndexOf(head, c) == -1;
    } else {
      var tail := ps[1..];
      forall p | p in tail ensures c !in p {
        assert p in ps;
      }
      PiecesJoin(tail, c);
      var rest := Join(tail, c);
      var s := head + [c] + rest;
      assert Join(ps, c) == s;
      PiecesAfter(head, c, rest);
      assert ps == [head] + tail;
    }
  }

  /** Splitting at the first delimiter: the piece before it, then the pieces of the rest. */
  lemma PiecesAfter(a: string, c: char, b: string)
    requires c !in a
    ensures Pieces(a + [c] + b, c) == [a] + Pieces(b, c)
  {
    var s := a + [c] + b;
    IndexOfAfter(a, c, b);
    assert s[..|a|] == a;
    assert s[|a| + 1..] == b;
  }

  /** Appending one more piece writes one more `c` and the piece. */
  lemma {:induction false} JoinSnoc(ps: seq<string>, p: string, c: char)
    requires |ps| >= 1
    ensures Join(ps + [p], c) == Join(ps, c) + [c] + p
  {
    if |ps| > 1 {
      assert (ps + [p])[1..] == ps[1..] + [p];
      JoinSnoc(ps[1..], p, c);
    }
  }

  /** A character other than the delimiter occurs in the join only if it occurs in a piece. */
  lemma {:induction false} JoinAvoids(ps: seq<string>, c: char, x: char)
    requires x != c
    requires forall p :: p in ps ==> x !in p
    ensures x !in Join(ps, c)
  {
    if |ps| == 1 {
      assert ps[0] in ps;
    } else if |ps| > 1 {
      assert ps[0] in ps;
      forall p | p in ps[1..] ensures x !in p {
        assert p in ps;
      }
      JoinAvoids(ps[1..], c, x);
    }
  }

  /** Drops the trailing empty strings, as split does when its limit is 0. */
  function DropTrailingEmpty(ps: seq<string>): (r: seq<string>)
    ensures r <= ps
    ensures forall j :: |r| <= j < |ps| ==> ps[j] == ""
    ensures r == [] || r[|r| - 1] != ""
  {
    if |ps| == 0 || ps[|ps| - 1] != "" then ps
    else DropTrailingEmpty(ps[..|ps| - 1])
  }

  /** `s.split(c)` for a delimiter that split treats literally. */
  function Split(s: string, c: char): (r: seq<string>)
    ensures c !in s ==> r == [s]
    ensures c in s ==>
              && r <= Pieces(s, c)
              && (forall j :: |r| <= j < |Pieces(s, c)| ==> Pieces(s, c)[j] == "")
              && (r == [] || r[|r| - 1] != "")
    ensures forall p :: p in r ==> c !in p
  {
    if c !in s then [s] else DropTrailingEmpty(Pieces(s, c))
  }

  /** n copies of c. */
  function Repeat(c: char, n: nat): string
  {
    if n == 0 then "" else Repeat(c, n - 1) + [c]
  }

  /** n empty strings. */
  function Empties(n: nat): seq<string>
  {
    seq(n, i => "")
  }

  /** Trailing empty pieces join to trailing delimiters. */
  lemma {:induction false} JoinEmpties(ps: seq<string>, n: nat, c: char)
    requires |ps| >= 1
    ensures Join(ps + Empties(n), c) == Join(ps, c) + Repeat(c, n)
  {
    if n > 0 {
      JoinEmpties(ps, n - 1, c);
      assert ps + Empties(n) == (ps + Empties(n - 1)) + [""];
      JoinSnoc(ps + Empties(n - 1), "", c);
    } else {
      assert ps + Empties(0) == ps;
    }
  }

  /** Dropping the trailing empty strings undoes appending them to pieces that end in a non-empty one. */
  lemma {:induction false} DropEmpties(ps: seq<string>, n: nat)
    requires ps != [] && ps[|ps| - 1] != ""
    ensures DropTrailingEmpty(ps + Empties(n)) == ps
  {
    if n > 0 {
      assert ps + Empties(n) == (ps + Empties(n - 1)) + [""];
      assert (ps + Empties(n))[..|ps| + n - 1] == ps + Empties(n - 1);
      DropEmpties(ps, n - 1);
    } else {
      assert ps + Empties(0) == ps;
    }
  }

  /** When the last piece is not empty nothing is dropped. */
  lemma SplitKeepsAll(s: string, c: char)
    requires Pieces(s, c)[|Pieces(s, c)| - 1] != ""
    ensures Split(s, c) == Pieces(s, c)
  {
    if c !in s {
      assert IndexOf(s, c) == -1;
    }
  }

  /** `"k=".split("=")` is `["k"]`: the empty value is dropped. */
  lemma SplitDropsEmptyValue()
    ensures Split("k=", '=') == ["k"]
  {
    assert Join(["k", ""], '=') == "k=";
    PiecesJoin(["k", ""], '=');
    assert "k="[1] == '=';
    assert ["k", ""] == ["k"] + Empties(1);
    DropEmpties(["k"], 1);
  }

  /** `"=v".split("=")` is `["", "v"]`: a leading empty piece is kept. */
  lemma SplitKeepsEmptyKey()
    ensures Split("=v", '=') == ["", "v"]
  {
    assert Join(["", "v"], '=') == "=v";
    PiecesJoin(["", "v"], '=');
    assert "=v"[0] == '=';
  }

  /** `"a=b,,".split(",")` is `["a=b"]`. */
  lemma SplitDropsTrailingTokens()
    ensures Split("a=b,,", ',') == ["a=b"]
  {
    var ps := ["a=b"] + Empties(2);
    JoinEmpties(["a=b"], 2, ',');
    assert Repeat(',', 2) == ",,";
    assert Join(ps, ',') == "a=b,,";
    PiecesJoin(ps, ',');
    assert "a=b,,"[3] == ',';
    DropEmpties(["a=b"], 2);
  }
}
