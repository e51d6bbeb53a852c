/**
 * The part of `BaseMetric` every metric shares (src/metrics/metrics.py): the bound
 * client, `bind_client`, and the display name derived from the class name.
 */
module MetricsBase {
  import opened Wrappers
  import opened Ascii
  import opened Seqs

  /** Identity of a client object; the client's behaviour is passed to each call separately. */
  type ClientId = nat

  /** The state a metric inherits from `BaseMetric`: the client it is bound to and its class name. */
  class BaseMetric {
    var client: Option<ClientId>
    const className: string

    constructor (className: string, client: Option<ClientId>)
      ensures this.className == className && this.client == client
    {
      this.className := className;
      this.client := client;
    }
  }

  /** `bind_client`: sets the client of every metric in the list and returns the same list. */
  method BindClient(metrics: seq<BaseMetric>, client: ClientId) returns (r: seq<BaseMetric>)
    modifies set m | m in metrics
    ensures r == metrics
    ensures forall m :: m in metrics ==> m.client == Some(client)
  {
    for i := 0 to |metrics|
      invariant forall k :: 0 <= k < i ==> metrics[k].client == Some(client)
    {
      metrics[i].client := Some(client);
    }
    return metrics;
  }

  /** Length of the longest prefix of `s` made of lower-case letters. */
  function LowerRun(s: string): (n: nat)
    ensures n <= |s|
    ensures forall i :: 0 <= i < n ==> IsLower(s[i])
    ensures n < |s| ==> !IsLower(s[n])
  {
    if s != [] && IsLower(s[0]) then 1 + LowerRun(s[1..]) else 0
  }

  /** Length of the longest prefix of `s` without upper-case letters. */
  function NonUpperRun(s: string): (n: nat)
    ensures n <= |s|
    ensures forall i :: 0 <= i < n ==> !IsUpper(s[i])
    ensures n < |s| ==> IsUpper(s[n])
  {
    if s != [] && !IsUpper(s[0]) then 1 + NonUpperRun(s[1..]) else 0
  }

  /** A match of the pattern `[A-Z][a-z]*`. */
  predicate IsCapitalWord(w: string)
  {
    |w| >= 1 && IsUpper(w[0]) && forall i :: 1 <= i < |w| ==> IsLower(w[i])
  }

  /** A non-empty stretch between two matches: no upper-case letters. */
  predicate IsGap(w: string)
  {
    |w| >= 1 && forall i :: 0 <= i < |w| ==> !IsUpper(w[i])
  }

  /** Length of the first piece of `s`: a match of `[A-Z][a-z]*`, or the gap before the next match. */
  function FirstWordLength(s: string): (n: nat)
    requires s != []
    ensures 1 <= n <= |s|
  {
    if IsUpper(s[0]) then 1 + LowerRun(s[1..]) else NonUpperRun(s)
  }

  /**
   * The words `beautiful_name` splits a class name into: each capital followed by its
   * lower-case letters, and each non-empty stretch between two such words, in order.
   * The regular expression's capturing group is why the matches themselves are kept.
   */
  function Words(s: string): (r: seq<string>)
    decreases |s|
  {
    if s == [] then []
    else
      var n := FirstWordLength(s);
      [s[..n]] + Words(s[n..])
  }

  /** The words written one after another. */
  function Concat(words: seq<string>): string
  {
    if words == [] then "" else words[0] + Concat(words[1..])
  }

  lemma ConcatCons(w: string, ws: seq<string>)
    ensures Concat([w] + ws) == w + Concat(ws)
  {
    assert ([w] + ws)[1..] == ws;
  }

  /** The words split the name without losing or adding a character. */
  lemma {:induction false} WordsConcat(s: string)
    ensures Concat(Words(s)) == s
    decreases |s|
  {
    if s != [] {
      var n := FirstWordLength(s);
      WordsConcat(s[n..]);
      ConcatCons(s[..n], Words(s[n..]));
      assert s == s[..n] + s[n..];
    }
  }

  lemma FirstWordShape(s: string)
    requires s != []
    ensures var w := s[..FirstWordLength(s)];
            (IsCapitalWord(w) || IsGap(w)) && (IsUpper(s[0]) <==> IsCapitalWord(w))
    ensures var n := FirstWordLength(s);
            n < |s| ==> (if IsUpper(s[0]) then !IsLower(s[n]) else IsUpper(s[n]))
  {
    var n := FirstWordLength(s);
    if IsUpper(s[0]) {
      assert forall i :: 1 <= i < n ==> s[i] == s[1..][i - 1];
      if n < |s| {
        assert s[n] == s[1..][n - 1];
      }
    }
  }

  /**
   * Each word is a capitalised word or a gap; a gap never follows a gap, and a gap is
   * never a run of lower-case letters right after a capitalised word (the match takes
   * every lower-case letter it can).
   */
  lemma {:induction false} WordsShape(s: string)
    ensures forall k :: 0 <= k < |Words(s)| ==> IsCapitalWord(Words(s)[k]) || IsGap(Words(s)[k])
    ensures forall k :: 0 < k < |Words(s)| && IsGap(Words(s)[k]) ==>
              IsCapitalWord(Words(s)[k - 1]) && !IsLower(Words(s)[k][0])
    decreases |s|
  {
    if s != [] {
      var n := FirstWordLength(s);
      var w, rest := s[..n], s[n..];
      WordsShape(rest);
      FirstWordShape(s);
      var ws := Words(s);
      var wr := Words(rest);
      assert ws == [w] + wr;
      assert forall k :: 0 < k < |ws| ==> ws[k] == wr[k - 1];
      if wr != [] {
        assert wr[0] == rest[..FirstWordLength(rest)];
        assert wr[0][0] == rest[0] == s[n];
        FirstWordShape(rest);
      }
    }
  }

  /** The words separated by single spaces. */
  function JoinSpaced(words: seq<string>): string
  {
    if words == [] then ""
    else if |words| == 1 then words[0]
    else words[0] + " " + JoinSpaced(words[1..])
  }

  /** `str.capitalize`: the first character upper-cased, every other one lower-cased. */
  function Capitalize(s: string): (r: string)
    ensures |r| == |s|
    ensures s != [] ==> r[0] == Upper(s[0])
    ensures forall i :: 0 < i < |s| ==> r[i] == Lower(s[i])
  {
    if s == [] then [] else [Upper(s[0])] + LowerAll(s[1..])
  }

  /** Each word lower-cased. */
  function LowerEach(words: seq<string>): (r: seq<string>)
    ensures |r| == |words|
    ensures forall k :: 0 <= k < |words| ==> r[k] == LowerAll(words[k])
  {
    if words == [] then [] else [LowerAll(words[0])] + LowerEach(words[1..])
  }

  lemma LowerAllAppend(a: string, b: string)
    ensures LowerAll(a + b) == LowerAll(a) + LowerAll(b)
  {
    assert forall i :: 0 <= i < |a + b| ==> LowerAll(a + b)[i] == (LowerAll(a) + LowerAll(b))[i];
  }

  /** Lower-casing a spaced sentence lower-cases each word and keeps the spaces where they are. */
  lemma {:induction false} LowerJoinSpaced(words: seq<string>)
    ensures LowerAll(JoinSpaced(words)) == JoinSpaced(LowerEach(words))
  {
    if |words| == 1 {
      assert LowerEach(words) == [LowerAll(words[0])];
    } else if |words| > 1 {
      var w, rest := words[0], words[1..];
      var lw := LowerEach(words);
      LowerJoinSpaced(rest);
      LowerAllAppend(w + " ", JoinSpaced(rest));
      LowerAllAppend(w, " ");
      assert LowerAll(" ") == " ";
      assert lw[1..] == LowerEach(rest);
    }
  }

  lemma CapitalizeAppend(a: string, b: string)
    requires a != []
    ensures Capitalize(a + b) == Capitalize(a) + LowerAll(b)
  {
    assert (a + b)[1..] == a[1..] + b;
    LowerAllAppend(a[1..], b);
  }

  lemma CapitalizeSpaced(w: string, j: string)
    requires w != []
    ensures Capitalize(w + (" " + j)) == Capitalize(w) + (" " + LowerAll(j))
  {
    CapitalizeAppend(w, " " + j);
    LowerAllAppend(" ", j);
    assert LowerAll(" ") == " ";
  }

  /**
   * Capitalising a spaced sentence capitalises its first word, lower-cases the others,
   * and keeps the spaces between them.
   */
  lemma CapitalizeJoinSpaced(words: seq<string>)
    requires words != [] && words[0] != []
    ensures Capitalize(JoinSpaced(words)) == JoinSpaced([Capitalize(words[0])] + LowerEach(words[1..]))
  {
    var w, rest := words[0], words[1..];
    var p := [Capitalize(w)] + LowerEach(rest);
    if |words| == 1 {
      assert p == [Capitalize(w)];
    } else {
      var j, lj := JoinSpaced(rest), JoinSpaced(LowerEach(rest));
      assert JoinSpaced(words) == (w + " ") + j;
      Assoc(w, " ", j);
      CapitalizeSpaced(w, j);
      LowerJoinSpaced(rest);
      assert |p| > 1 && p[0] == Capitalize(w) && p[1..] == LowerEach(rest);
      assert JoinSpaced(p) == (Capitalize(w) + " ") + lj;
      Assoc(Capitalize(w), " ", lj);
    }
  }

  /**
   * `BaseMetric.beautiful_name`: the words of the class name separated by single spaces,
   * the first word capitalised and the others lower-cased.
   */
  function BeautifulName(className: string): (r: string)
    ensures forall i :: 0 < i < |r| ==> !IsUpper(r[i])
    ensures className != [] ==> |r| == |className| + |Words(className)| - 1
    ensures className != [] && IsLetter(className[0]) ==> IsUpper(r[0])
    ensures className != [] ==>
              r == JoinSpaced([Capitalize(Words(className)[0])] + LowerEach(Words(className)[1..]))
  {
    var words := Words(className);
    WordsConcat(className);
    JoinSpacedLength(words);
    assert words != [] ==>
             Capitalize(JoinSpaced(words)) == JoinSpaced([Capitalize(words[0])] + LowerEach(words[1..])) by {
      if words != [] {
        assert words[0] != [];
        CapitalizeJoinSpaced(words);
      }
    }
    assert words != [] ==> JoinSpaced(words)[0] == className[0] by {
      if words != [] {
        assert words[0] != [];
        JoinSpacedFirst(words);
        ConcatFirst(words);
      }
    }
    Capitalize(JoinSpaced(words))
  }

  lemma {:induction false} JoinSpacedLength(words: seq<string>)
    ensures words != [] ==> |JoinSpaced(words)| == |Concat(words)| + |words| - 1
  {
    if |words| > 1 {
      JoinSpacedLength(words[1..]);
    }
  }

  lemma JoinSpacedFirst(words: seq<string>)
    requires words != [] && words[0] != []
    ensures JoinSpaced(words) != [] && JoinSpaced(words)[0] == words[0][0]
  {
  }

  lemma ConcatFirst(words: seq<string>)
    requires words != [] && words[0] != []
    ensures Concat(words) != [] && Concat(words)[0] == words[0][0]
  {
  }

  /** `s` with every space removed. */
  function Unspaced(s: string): string
  {
    if s == [] then [] else (if s[0] == ' ' then [] else [s[0]]) + Unspaced(s[1..])
  }

  lemma {:induction false} UnspacedAppend(a: string, b: string)
    ensures Unspaced(a + b) == Unspaced(a) + Unspaced(b)
  {
    if a == [] {
      assert a + b == b;
    } else {
      assert (a + b)[1..] == a[1..] + b;
      UnspacedAppend(a[1..], b);
    }
  }

  lemma {:induction false} UnspacedOfSpaceless(s: string)
    requires ' ' !in s
    ensures Unspaced(s) == s
  {
    if s != [] {
      assert s[0] in s;
      UnspacedOfSpaceless(s[1..]);
    }
  }

  lemma {:induction false} UnspacedLowerAll(s: string)
    ensures Unspaced(LowerAll(s)) == LowerAll(Unspaced(s))
  {
    if s != [] {
      UnspacedLowerAll(s[1..]);
      assert LowerAll(s) == [Lower(s[0])] + LowerAll(s[1..]);
      assert LowerAll(s)[1..] == LowerAll(s[1..]);
      if s[0] != ' ' {
        assert LowerAll([s[0]] + Unspaced(s[1..])) == [Lower(s[0])] + LowerAll(Unspaced(s[1..]));
      }
    }
  }

  lemma {:induction false} UnspacedJoin(words: seq<string>)
    requires forall k :: 0 <= k < |words| ==> ' ' !in words[k]
    ensures Unspaced(JoinSpaced(words)) == Concat(words)
  {
    if words != [] {
      var w, rest := words[0], words[1..];
      UnspacedOfSpaceless(w);
      if |words| == 1 {
        assert Concat(words) == w + Concat(rest);
      } else {
        calc {
          Unspaced(JoinSpaced(words));
          Unspaced((w + " ") + JoinSpaced(rest));
          { UnspacedAppend(w + " ", JoinSpaced(rest)); }
          Unspaced(w + " ") + Unspaced(JoinSpaced(rest));
          { UnspacedAppend(w, " "); assert Unspaced(" ") == []; assert w + [] == w; }
          w + Unspaced(JoinSpaced(rest));
          { assert forall k :: 0 <= k < |rest| ==> rest[k] == words[k + 1];
            UnspacedJoin(rest); }
          w + Concat(rest);
          Concat(words);
        }
      }
    }
  }

  lemma {:induction false} ConcatOmits(words: seq<string>, c: char)
    requires c !in Concat(words)
    ensures forall k :: 0 <= k < |words| ==> c !in words[k]
  {
    if words != [] {
      ConcatOmits(words[1..], c);
      assert forall k :: 1 <= k < |words| ==> words[k] == words[1..][k - 1];
      assert forall i :: 0 <= i < |words[0]| ==> words[0][i] == Concat(words)[i];
    }
  }

  /**
   * For a class name without spaces, removing the spaces from its beautiful name gives
   * the class name capitalised: the only changes are the spaces between words and the case.
   */
  lemma BeautifulNameKeepsLetters(className: string)
    requires ' ' !in className
    ensures Unspaced(BeautifulName(className)) == Capitalize(className)
  {
    var words := Words(className);
    WordsConcat(className);
    ConcatOmits(words, ' ');
    UnspacedJoin(words);
    var j := JoinSpaced(words);
    if className != [] {
      assert words != [];
      assert j[0] == className[0];
      assert j == [j[0]] + j[1..];
      UnspacedAppend([j[0]], j[1..]);
      assert className == [className[0]] + className[1..];
      assert Unspaced(j[1..]) == className[1..];
      UnspacedAppend([Upper(j[0])], LowerAll(j[1..]));
      UnspacedLowerAll(j[1..]);
      assert Upper(j[0]) != ' ';
    }
  }

  /**
   * For a non-empty class name without spaces, the beautiful name's pieces between
   * spaces are exactly its words: each non-empty and without a space, the first
   * capitalised and the others lower-cased, so the spaces fall exactly on the word
   * boundaries.
   */
  lemma BeautifulNameSpacing(className: string)
    requires className != [] && ' ' !in className
    ensures var words := Words(className);
            var p := [Capitalize(words[0])] + LowerEach(words[1..]);
            && |p| == |words|
            && BeautifulName(className) == JoinSpaced(p)
            && (forall k :: 0 <= k < |p| ==> |p[k]| == |words[k]| > 0 && ' ' !in p[k])
  {
    var words := Words(className);
    WordsConcat(className);
    WordsShape(className);
    ConcatOmits(words, ' ');
    var p := [Capitalize(words[0])] + LowerEach(words[1..]);
    forall k | 0 <= k < |p| ensures |p[k]| == |words[k]| > 0 && ' ' !in p[k] {
      assert IsCapitalWord(words[k]) || IsGap(words[k]);
      forall i | 0 <= i < |p[k]| ensures p[k][i] != ' ' {
        assert words[k][i] in words[k];
        if k == 0 {
          if i == 0 { assert p[k][i] == Upper(words[k][i]); } else { assert p[k][i] == Lower(words[k][i]); }
        } else {
          assert p[k] == LowerAll(words[1..][k - 1]) && words[1..][k - 1] == words[k];
          assert p[k][i] == Lower(words[k][i]);
        }
      }
    }
  }

  lemma {:induction false} LowerRunOf(l: string, t: string)
    requires forall i :: 0 <= i < |l| ==> IsLower(l[i])
    requires t == [] || !IsLower(t[0])
    ensures LowerRun(l + t) == |l|
  {
    if l == [] {
      assert l + t == t;
    } else {
      assert (l + t)[1..] == l[1..] + t;
      LowerRunOf(l[1..], t);
    }
  }

  /** A capitalised word followed by anything but a lower-case letter is split off whole. */
  lemma WordsCapitalFront(w: string, t: string)
    requires IsCapitalWord(w) && (t == [] || !IsLower(t[0]))
    ensures Words(w + t) == [w] + Words(t)
  {
    var s := w + t;
    assert s[1..] == w[1..] + t;
    LowerRunOf(w[1..], t);
    assert s[..|w|] == w && s[|w|..] == t;
  }

  /** A name made only of capitalised words splits into exactly those words. */
  lemma {:induction false} WordsOfCapitalWords(words: seq<string>)
    requires forall k :: 0 <= k < |words| ==> IsCapitalWord(words[k])
    ensures Words(Concat(words)) == words
  {
    if words != [] {
      var rest := words[1..];
      WordsOfCapitalWords(rest);
      if rest != [] {
        ConcatFirst(rest);
      }
      WordsCapitalFront(words[0], Concat(rest));
    }
  }

  lemma CapitalizeOfCapitalWord(w: string)
    requires IsCapitalWord(w)
    ensures Capitalize(w) == w
  {
    assert forall i :: 0 <= i < |w| ==> Capitalize(w)[i] == w[i];
  }

  lemma ExampleConcat()
    ensures Concat(["Assignment", "Events", "In", "Pool"]) == "AssignmentEventsInPool"
  {
    var words := ["Assignment", "Events", "In", "Pool"];
    assert words[1..][1..][1..][1..] == [];
  }

  lemma ExampleWords()
    ensures Words("AssignmentEventsInPool") == ["Assignment", "Events", "In", "Pool"]
  {
    ExampleConcat();
    WordsOfCapitalWords(["Assignment", "Events", "In", "Pool"]);
  }

  lemma ExampleLower()
    ensures LowerEach(["Events", "In", "Pool"]) == ["events", "in", "pool"]
  {
    var lower := LowerEach(["Events", "In", "Pool"]);
    assert lower[0] == LowerAll("Events") == "events";
    assert lower[1] == LowerAll("In") == "in";
    assert lower[2] == LowerAll("Pool") == "pool";
  }

  lemma ExampleSpaced()
    ensures JoinSpaced(["Assignment", "events", "in", "pool"]) == "Assignment events in pool"
  {
    var words := ["Assignment", "events", "in", "pool"];
    assert words[1..] == ["events", "in", "pool"] && words[1..][1..] == ["in", "pool"];
    assert words[1..][1..][1..] == ["pool"];
    assert JoinSpaced(["in", "pool"]) == "in pool";
    assert JoinSpaced(["events", "in", "pool"]) == "events in pool";
  }

  lemma ExampleCapitalize()
    ensures Capitalize("Assignment") == "Assignment"
  {
    CapitalizeOfCapitalWord("Assignment");
  }

  lemma ExampleJoin()
    ensures JoinSpaced(["Assignment"] + LowerEach(["Events", "In", "Pool"])) == "Assignment events in pool"
  {
    ExampleLower();
    ExampleSpaced();
    assert ["Assignment"] + ["events", "in", "pool"] == ["Assignment", "events", "in", "pool"];
  }

  /** A class of the model, as its name is displayed. */
  lemma BeautifulNameExample(className: string)
    requires className == "AssignmentEventsInPool"
    ensures BeautifulName(className) == "Assignment events in pool"
  {
    ExampleWords();
    ExampleJoin();
    var words := Words(className);
    assert words[0] == "Assignment" && words[1..] == ["Events", "In", "Pool"];
    ExampleCapitalize();
  }

  /**
   * `BasePoolMetric.beautiful_name`: the base name followed by the pool's private name in
   * quotes and its id in parentheses; `private_name` and `id` come from the pool the
   * client returns.
   */
  function PoolBeautifulName(className: string, privateName: string, poolId: string): (r: string)
    ensures BeautifulName(className) <= r
    ensures r[|BeautifulName(className)|..] == " '" + privateName + "' (" + poolId + ")"
  {
    BeautifulName(className) + " '" + privateName + "' (" + poolId + ")"
  }
}
