/**
 * Conversions between snake_case and camelCase names
 * (`camel_case_from_snake_case` and `snake_case_from_camel_case` in src/util/__init__.py).
 */
module UtilCase {
  import opened Ascii
  import opened Seqs

  /** The parts separated by single underscores. */
  function Join(parts: seq<string>): string
  {
    if |parts| == 0 then ""
    else if |parts| == 1 then parts[0]
    else parts[0] + "_" + Join(parts[1..])
  }

  lemma JoinHead(h: string, t: seq<string>)
    ensures Join([h] + t) == if |t| == 0 then h else h + "_" + Join(t)
  {
    assert ([h] + t)[1..] == t;
  }

  lemma JoinPrepend(x: string, h: string, t: seq<string>)
    ensures Join([x + h] + t) == x + Join([h] + t)
  {
    JoinHead(x + h, t);
    JoinHead(h, t);
    if |t| != 0 {
      var tail := Join(t);
      assert (x + h) + "_" + tail == x + (h + "_" + tail);
    }
  }

  /**
   * `s.split('_')`: the pieces between underscores, empty ones included;
   * never an empty list.
   */
  function Split(s: string): (r: seq<string>)
    ensures |r| == CountChar(s, '_') + 1
  {
    if s == [] then [""]
    else
      var rest := Split(s[1..]);
      if s[0] == '_' then [""] + rest
      else [[s[0]] + rest[0]] + rest[1..]
  }

  lemma SplitCons(c: char, t: string)
    ensures c == '_' ==> Split([c] + t) == [""] + Split(t)
    ensures c != '_' ==> Split([c] + t) == [[c] + Split(t)[0]] + Split(t)[1..]
  {
    assert ([c] + t)[1..] == t;
  }

  /**
   * The pieces of `split('_')` hold no underscore, the first one is a prefix of `s`,
   * and joining them with underscores gives `s` back.
   */
  lemma SplitProps(s: string)
    ensures forall k :: 0 <= k < |Split(s)| ==> '_' !in Split(s)[k]
    ensures Split(s)[0] <= s
    ensures Join(Split(s)) == s
  {
    SplitPieces(s);
    SplitPrefix(s);
    SplitJoin(s);
  }

  lemma {:induction false} SplitPieces(s: string)
    ensures forall k :: 0 <= k < |Split(s)| ==> '_' !in Split(s)[k]
  {
    if s != [] {
      var c, t := s[0], s[1..];
      assert s == [c] + t;
      SplitPieces(t);
      var rest := Split(t);
      SplitCons(c, t);
      if c == '_' {
        forall k | 0 < k < |Split(s)| ensures '_' !in Split(s)[k] {
          assert Split(s)[k] == rest[k - 1];
        }
      } else {
        assert rest == [rest[0]] + rest[1..];
        forall k | 0 <= k < |Split(s)| ensures '_' !in Split(s)[k] {
          if k > 0 {
            assert Split(s)[k] == rest[k];
          }
        }
      }
    }
  }

  lemma {:induction false} SplitPrefix(s: string)
    ensures Split(s)[0] <= s
  {
    if s != [] {
      var c, t := s[0], s[1..];
      assert s == [c] + t;
      SplitPrefix(t);
      SplitCons(c, t);
      if c != '_' {
        var h := Split(t)[0];
        assert [c] + h == ([c] + t)[..|h| + 1];
      }
    }
  }

  lemma {:induction false} SplitJoin(s: string)
    ensures Join(Split(s)) == s
  {
    if s != [] {
      var c, t := s[0], s[1..];
      assert s == [c] + t;
      SplitJoin(t);
      var rest := Split(t);
      SplitCons(c, t);
      if c == '_' {
        JoinHead("", rest);
        assert "" + "_" + t == s;
      } else {
        assert rest == [rest[0]] + rest[1..];
        JoinPrepend([c], rest[0], rest[1..]);
      }
    }
  }

  /**
   * `str.title` from a given position: a letter is upper-cased when the character
   * before it is not a letter, lower-cased when it is; other characters are kept.
   * `afterLetter` tells whether the character before `w` was a letter.
   */
  function TitleFrom(w: string, afterLetter: bool): (r: string)
    ensures |r| == |w|
  {
    if w == [] then []
    else
      var first := if !IsLetter(w[0]) then w[0] else if afterLetter then Lower(w[0]) else Upper(w[0]);
      [first] + TitleFrom(w[1..], IsLetter(w[0]))
  }

  /** `str.title` on one word. */
  function Title(w: string): (r: string)
  {
    TitleFrom(w, false)
  }

  /** What `str.title` does to each character, stated position by position. */
  lemma {:induction false} TitleFromChars(w: string, afterLetter: bool)
    ensures forall i :: 0 <= i < |w| && !IsLetter(w[i]) ==> TitleFrom(w, afterLetter)[i] == w[i]
    ensures forall i :: 0 <= i < |w| && IsLetter(w[i]) && (if i == 0 then !afterLetter else !IsLetter(w[i - 1])) ==> TitleFrom(w, afterLetter)[i] == Upper(w[i])
    ensures forall i :: 0 <= i < |w| && IsLetter(w[i]) && (if i == 0 then afterLetter else IsLetter(w[i - 1])) ==> TitleFrom(w, afterLetter)[i] == Lower(w[i])
  {
    if w != [] {
      TitleFromChars(w[1..], IsLetter(w[0]));
      var r := TitleFrom(w, afterLetter);
      assert forall i :: 1 <= i < |w| ==> r[i] == TitleFrom(w[1..], IsLetter(w[0]))[i - 1] && w[i] == w[1..][i - 1];
    }
  }

  /** Title-casing neither adds nor removes underscores. */
  lemma TitleUnderscores(w: string)
    ensures '_' in Title(w) <==> '_' in w
  {
    var r := Title(w);
    TitleFromChars(w, false);
    forall i | 0 <= i < |w| ensures r[i] == '_' <==> w[i] == '_' {
      if IsLetter(w[i]) {
        if i == 0 || !IsLetter(w[i - 1]) {
          assert r[i] == Upper(w[i]);
        } else {
          assert r[i] == Lower(w[i]);
        }
      }
    }
  }

  /** Every word title-cased, the results written one after another. */
  function TitleAll(words: seq<string>): string
  {
    if words == [] then "" else Title(words[0]) + TitleAll(words[1..])
  }

  /** Total length of `parts`. */
  function SumLen(parts: seq<string>): nat
  {
    if parts == [] then 0 else |parts[0]| + SumLen(parts[1..])
  }

  lemma {:induction false} TitleAllShape(words: seq<string>)
    requires forall k :: 0 <= k < |words| ==> '_' !in words[k]
    ensures |TitleAll(words)| == SumLen(words)
    ensures '_' !in TitleAll(words)
  {
    if words != [] {
      TitleUnderscores(words[0]);
      TitleAllShape(words[1..]);
    }
  }

  lemma {:induction false} JoinLength(parts: seq<string>)
    requires parts != []
    ensures |Join(parts)| == SumLen(parts) + |parts| - 1
  {
    if |parts| > 1 {
      JoinLength(parts[1..]);
    }
  }

  /**
   * `camel_case_from_snake_case`: the first underscore-separated segment verbatim,
   * followed by every later segment title-cased.
   */
  function CamelFromSnake(name: string): string
  {
    var segs := Split(name);
    segs[0] + TitleAll(segs[1..])
  }

  /**
   * The camelCase form has no underscore, begins with the first segment unchanged and
   * is shorter than the name by exactly its underscores.
   */
  lemma CamelFromSnakeShape(name: string)
    ensures '_' !in CamelFromSnake(name)
    ensures Split(name)[0] <= CamelFromSnake(name)
    ensures |CamelFromSnake(name)| == |name| - CountChar(name, '_')
  {
    var segs := Split(name);
    SplitProps(name);
    assert forall k :: 0 <= k < |segs[1..]| ==> segs[1..][k] == segs[k + 1];
    TitleAllShape(segs[1..]);
    JoinLength(segs);
    assert SumLen(segs) == |segs[0]| + SumLen(segs[1..]);
  }

  /** `CamelFromSnake` of a name whose split is known. */
  lemma CamelOfSegments(name: string, h: string, t: seq<string>)
    requires Split(name) == [h] + t
    ensures CamelFromSnake(name) == h + TitleAll(t)
  {
    assert ([h] + t)[1..] == t;
  }

  /** What one character of a camelCase name becomes in snake_case. */
  function SnakeChar(c: char): string
  {
    if IsUpper(c) then ['_', Lower(c)] else [c]
  }

  /**
   * `snake_case_from_camel_case`: every upper-case character becomes an underscore
   * followed by its lower-case form; every other character is kept.
   */
  function SnakeFromCamel(name: string): (r: string)
    ensures |r| == |name| + CountUpper(name)
  {
    if name == [] then []
    else SnakeChar(name[0]) + SnakeFromCamel(name[1..])
  }

  /** The snake_case form has no upper-case character. */
  lemma {:induction false} SnakeFromCamelLower(name: string)
    ensures forall i :: 0 <= i < |SnakeFromCamel(name)| ==> !IsUpper(SnakeFromCamel(name)[i])
  {
    if name != [] {
      SnakeFromCamelLower(name[1..]);
      var a, b := SnakeChar(name[0]), SnakeFromCamel(name[1..]);
      assert SnakeFromCamel(name) == a + b;
      forall i | 0 <= i < |a + b| ensures !IsUpper((a + b)[i]) {
        if i >= |a| {
          assert (a + b)[i] == b[i - |a|];
        }
      }
    }
  }

  /** The conversion works character by character. */
  lemma {:induction false} SnakeAppend(a: string, b: string)
    ensures SnakeFromCamel(a + b) == SnakeFromCamel(a) + SnakeFromCamel(b)
  {
    if a == [] {
      assert a + b == b;
    } else {
      assert (a + b)[1..] == a[1..] + b;
      SnakeAppend(a[1..], b);
    }
  }

  /** A name without upper-case characters is its own snake_case form. */
  lemma {:induction false} SnakeOfNoUpper(s: string)
    requires forall i :: 0 <= i < |s| ==> !IsUpper(s[i])
    ensures SnakeFromCamel(s) == s
  {
    if s != [] {
      SnakeOfNoUpper(s[1..]);
    }
  }

  predicate AllLower(s: string)
  {
    forall i :: 0 <= i < |s| ==> IsLower(s[i])
  }

  /** Lower-case words joined by single underscores, no segment empty. */
  predicate IsSnakeName(s: string)
  {
    forall k :: 0 <= k < |Split(s)| ==> Split(s)[k] != [] && AllLower(Split(s)[k])
  }

  /** Every word preceded by an underscore, written one after another. */
  function PrefixEach(ws: seq<string>): string
  {
    if ws == [] then "" else "_" + ws[0] + PrefixEach(ws[1..])
  }

  lemma {:induction false} JoinAsPrefixEach(segs: seq<string>)
    requires segs != []
    ensures Join(segs) == segs[0] + PrefixEach(segs[1..])
  {
    if |segs| > 1 {
      JoinAsPrefixEach(segs[1..]);
      assert segs[1..][1..] == segs[2..];
    } else {
      assert segs[1..] == [];
    }
  }

  lemma {:induction false} TitleFromLower(w: string)
    requires AllLower(w)
    ensures TitleFrom(w, true) == w
  {
    if w != [] {
      TitleFromLower(w[1..]);
    }
  }

  lemma SnakeCons(c: char, t: string)
    ensures SnakeFromCamel([c] + t) == SnakeChar(c) + SnakeFromCamel(t)
  {
    assert ([c] + t)[1..] == t;
  }

  lemma TitleOfLowerWord(w: string)
    requires w != [] && AllLower(w)
    ensures Title(w) == [Upper(w[0])] + w[1..]
  {
    TitleFromLower(w[1..]);
  }

  lemma SnakeOfTitledWord(w: string)
    requires w != [] && AllLower(w)
    ensures SnakeFromCamel(Title(w)) == "_" + w
  {
    var u, rest := Upper(w[0]), w[1..];
    calc {
      SnakeFromCamel(Title(w));
      { TitleOfLowerWord(w); }
      SnakeFromCamel([u] + rest);
      { SnakeCons(u, rest); }
      SnakeChar(u) + SnakeFromCamel(rest);
      { CaseRoundTrip(w[0]);
        assert SnakeChar(u) == ['_', w[0]];
        assert forall i :: 0 <= i < |rest| ==> rest[i] == w[i + 1];
        SnakeOfNoUpper(rest); }
      ['_', w[0]] + rest;
      { Cons2('_', w[0], rest); assert w == [w[0]] + rest; }
      "_" + w;
    }
  }

  lemma {:induction false} SnakeOfTitledWords(ws: seq<string>)
    requires forall k :: 0 <= k < |ws| ==> ws[k] != [] && AllLower(ws[k])
    ensures SnakeFromCamel(TitleAll(ws)) == PrefixEach(ws)
  {
    if ws != [] {
      SnakeOfTitledWord(ws[0]);
      SnakeAppend(Title(ws[0]), TitleAll(ws[1..]));
      SnakeOfTitledWords(ws[1..]);
    }
  }

  /** For snake_case names, converting to camelCase and back gives the name again. */
  lemma SnakeCamelRoundTrip(s: string)
    requires IsSnakeName(s)
    ensures SnakeFromCamel(CamelFromSnake(s)) == s
  {
    var segs := Split(s);
    SplitProps(s);
    var tail := segs[1..];
    calc {
      SnakeFromCamel(CamelFromSnake(s));
      SnakeFromCamel(segs[0] + TitleAll(tail));
      { SnakeAppend(segs[0], TitleAll(tail)); }
      SnakeFromCamel(segs[0]) + SnakeFromCamel(TitleAll(tail));
      { SnakeOfNoUpper(segs[0]);
        assert forall k :: 0 <= k < |tail| ==> tail[k] == segs[k + 1];
        SnakeOfTitledWords(tail); }
      segs[0] + PrefixEach(tail);
      { JoinAsPrefixEach(segs); }
      Join(segs);
    }
  }

  predicate AllLetters(s: string)
  {
    forall i :: 0 <= i < |s| ==> IsLetter(s[i])
  }

  lemma {:induction false} SnakeOfLetters(t: string)
    requires AllLetters(t)
    ensures forall i :: 0 <= i < |SnakeFromCamel(t)| ==> IsLower(SnakeFromCamel(t)[i]) || SnakeFromCamel(t)[i] == '_'
  {
    if t != [] {
      SnakeOfLetters(t[1..]);
    }
  }

  lemma TitleAllCons(h: string, t: seq<string>)
    ensures TitleAll([h] + t) == Title(h) + TitleAll(t)
  {
    assert ([h] + t)[1..] == t;
  }

  /** The first segment of the split of a snake_case form of letters is lower-case. */
  lemma FirstSegmentLower(t: string)
    requires AllLetters(t)
    ensures AllLower(Split(SnakeFromCamel(t))[0])
  {
    var st := SnakeFromCamel(t);
    var s0 := Split(st)[0];
    SnakeOfLetters(t);
    SplitProps(st);
    forall i | 0 <= i < |s0| ensures IsLower(s0[i]) {
      assert s0[i] == st[i];
      assert s0[i] in s0;
    }
  }

  /** How the split of the snake_case form looks when the name starts with a capital. */
  lemma UpperSplit(u: char, t: string)
    requires IsUpper(u)
    ensures var ss := Split(SnakeFromCamel(t));
            Split(SnakeFromCamel([u] + t)) == [""] + ([[Lower(u)] + ss[0]] + ss[1..])
  {
    var l := Lower(u);
    var st := SnakeFromCamel(t);
    var ss := Split(st);
    calc {
      Split(SnakeFromCamel([u] + t));
      { SnakeCons(u, t); assert SnakeChar(u) == ['_', l]; Cons2('_', l, st); }
      Split(['_'] + ([l] + st));
      { SplitCons('_', [l] + st); }
      [""] + Split([l] + st);
      { SplitCons(l, st); }
      [""] + ([[l] + ss[0]] + ss[1..]);
    }
  }

  lemma UpperStep(u: char, t: string)
    requires IsUpper(u) && AllLetters(t)
    requires CamelFromSnake(SnakeFromCamel(t)) == t
    ensures CamelFromSnake(SnakeFromCamel([u] + t)) == [u] + t
  {
    var l := Lower(u);
    var st := SnakeFromCamel(t);
    var ss := Split(st);
    var s0, rest := ss[0], ss[1..];
    var w := [l] + s0;
    assert AllLower(w) by {
      FirstSegmentLower(t);
      assert forall i :: 0 < i < |w| ==> w[i] == s0[i - 1];
    }
    calc {
      CamelFromSnake(SnakeFromCamel([u] + t));
      { UpperSplit(u, t); CamelOfSegments(SnakeFromCamel([u] + t), "", [w] + rest); }
      "" + TitleAll([w] + rest);
      { TitleAllCons(w, rest); }
      Title(w) + TitleAll(rest);
      { TitleOfLowerWord(w); CaseRoundTrip(u); assert w[1..] == s0; }
      ([u] + s0) + TitleAll(rest);
      { ConsAssoc(u, s0, TitleAll(rest)); }
      [u] + (s0 + TitleAll(rest));
      { assert ss == [s0] + rest; CamelOfSegments(st, s0, rest); }
      [u] + t;
    }
  }

  lemma OtherStep(c: char, t: string)
    requires !IsUpper(c) && c != '_'
    requires CamelFromSnake(SnakeFromCamel(t)) == t
    ensures CamelFromSnake(SnakeFromCamel([c] + t)) == [c] + t
  {
    var st := SnakeFromCamel(t);
    var ss := Split(st);
    var s0, rest := ss[0], ss[1..];
    calc {
      CamelFromSnake(SnakeFromCamel([c] + t));
      { SnakeCons(c, t); assert SnakeChar(c) == [c]; }
      CamelFromSnake([c] + st);
      { SplitCons(c, st); CamelOfSegments([c] + st, [c] + s0, rest); }
      ([c] + s0) + TitleAll(rest);
      { ConsAssoc(c, s0, TitleAll(rest)); }
      [c] + (s0 + TitleAll(rest));
      { assert ss == [s0] + rest; CamelOfSegments(st, s0, rest); }
      [c] + t;
    }
  }

  /** For names made only of ASCII letters, converting to snake_case and back gives the name again. */
  lemma {:induction false} CamelSnakeRoundTrip(c: string)
    requires AllLetters(c)
    ensures CamelFromSnake(SnakeFromCamel(c)) == c
  {
    if c != [] {
      var t := c[1..];
      assert c == [c[0]] + t;
      CamelSnakeRoundTrip(t);
      if IsUpper(c[0]) {
        UpperStep(c[0], t);
      } else {
        OtherStep(c[0], t);
      }
    }
  }
}
