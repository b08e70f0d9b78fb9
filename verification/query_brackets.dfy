/**
 * The where-condition builders. A condition is kept as data: no clause at
 * all, a single `where` clause, or a list of clauses joined by `orWhere`.
 * How the database evaluates a clause is not modelled.
 */
module QueryBrackets {
  import opened Wrappers
  import opened JsValues

  datatype Operator = Lt | Eq

  /**
   * A placeholder name: `base`, optionally followed by a numeric suffix
   * (`word` or `word3`); how the suffix is spelled in decimal is left abstract.
   */
  datatype Placeholder = Placeholder(base: string, suffix: Option<nat>)

  /**
   * `${column} <op> :name` together with the value handed to `where` or
   * `orWhere` under that name in the parameter object.
   */
  datatype Clause = Clause(column: string, op: Operator, name: Placeholder, param: JsValue)

  datatype Condition = Empty | Where(clause: Clause) | AnyOf(clauses: seq<Clause>)

  /** `eqCondition(column, value)`. */
  function EqCondition(column: string, value: JsValue): (r: Condition)
    // the falsy values of JavaScript give no clause
    ensures r == Empty <==>
      value == Undefined || value == Null || value == Bool(false) || value == Num(0.0)
      || value == NaN || value == Str("")
    ensures r != Empty ==> r.Where? && r.clause == Clause(column, Eq, Placeholder("value", None), value)
  {
    if Falsy(value) then Empty else Where(Clause(column, Eq, Placeholder("value", None), value))
  }

  /** `ltCondition(column, value)`. */
  function LtCondition(column: string, value: JsValue): (r: Condition)
    ensures r == Empty <==>
      value == Undefined || value == Null || value == Bool(false) || value == Num(0.0)
      || value == NaN || value == Str("")
    ensures r != Empty ==> r.Where? && r.clause == Clause(column, Lt, Placeholder("value", None), value)
  {
    if Falsy(value) then Empty else Where(Clause(column, Lt, Placeholder("value", None), value))
  }

  // ---------------------------------------------------------------------
  // Splitting a keyword on single spaces: `keyword.split(/ /g)`.
  // ---------------------------------------------------------------------

  /** The words of `s`: every space ends one word and starts the next. */
  function Split(s: string): (words: seq<string>)
    ensures |words| >= 1
  {
    if |s| == 0 then [""]
    else
      var rest := Split(s[1..]);
      if s[0] == ' ' then [""] + rest
      else [[s[0]] + rest[0]] + rest[1..]
  }

  /** No word contains a space. */
  lemma {:induction false} WordsHaveNoSpace(s: string)
    ensures forall k :: 0 <= k < |Split(s)| ==> ' ' !in Split(s)[k]
  {
    if |s| > 0 {
      WordsHaveNoSpace(s[1..]);
    }
  }

  /** There is one word more than there are spaces. */
  lemma {:induction false} WordCount(s: string)
    ensures |Split(s)| == multiset(s)[' '] + 1
  {
    if |s| > 0 {
      WordCount(s[1..]);
      assert s == [s[0]] + s[1..];
      assert multiset(s) == multiset([s[0]]) + multiset(s[1..]);
    }
  }

  /** `words.join(' ')`: the first word, then a space before each further word. */
  function Join(words: seq<string>): (r: string)
    requires |words| >= 1
    ensures words[0] <= r
    ensures |words| > 1 ==> |r| > |words[0]| && r[|words[0]|] == ' '
  {
    if |words| == 1 then words[0] else words[0] + " " + Join(words[1..])
  }

  /** Joining the words with single spaces gives the keyword back. */
  lemma {:induction false} JoinSplit(s: string)
    ensures Join(Split(s)) == s
  {
    if |s| > 0 {
      var c, u := s[0], s[1..];
      assert s == [c] + u;
      JoinSplit(u);
      if c == ' ' {
        SplitSpace(u);
        JoinAfterEmpty(Split(u));
      } else {
        SplitCons(c, u);
        JoinAfterChar(c, Split(u));
      }
    }
  }

  /** An empty first word contributes just the separating space. */
  lemma JoinAfterEmpty(rest: seq<string>)
    requires |rest| >= 1
    ensures Join([""] + rest) == [' '] + Join(rest)
  {
    assert ([""] + rest)[1..] == rest;
  }

  /** A character glued to the first word comes out in front of the joined text. */
  lemma JoinAfterChar(c: char, rest: seq<string>)
    requires |rest| >= 1
    ensures Join([[c] + rest[0]] + rest[1..]) == [c] + Join(rest)
  {
    var words := [[c] + rest[0]] + rest[1..];
    if |rest| > 1 {
      var x, y := rest[0], Join(rest[1..]);
      assert words[0] == [c] + x && words[1..] == rest[1..];
      assert Join(words) == ([c] + x) + " " + y;
      assert Join(rest) == x + " " + y;
      Regroup([c], x, " ", y);
    }
  }

  lemma Regroup(a: string, b: string, c: string, d: string)
    ensures (a + b) + c + d == a + (b + c + d)
  {
  }

  /** A leading non-space character joins the first word. */
  lemma SplitCons(c: char, u: string)
    requires c != ' '
    ensures Split([c] + u) == [[c] + Split(u)[0]] + Split(u)[1..]
  {
    assert ([c] + u)[1..] == u;
  }

  /** A leading space ends an empty first word. */
  lemma SplitSpace(u: string)
    ensures Split([' '] + u) == [""] + Split(u)
  {
    assert ([' '] + u)[1..] == u;
  }

  /** Splitting a space-free word followed by `t` glues the word to `t`'s first word. */
  lemma {:induction false} SplitPrefix(w: string, t: string)
    requires ' ' !in w
    ensures Split(w + t) == [w + Split(t)[0]] + Split(t)[1..]
  {
    var st := Split(t);
    if |w| == 0 {
      assert w + t == t;
      assert w + st[0] == st[0];
      assert [st[0]] + st[1..] == st;
    } else {
      var c, w' := w[0], w[1..];
      SplitPrefix(w', t);
      SplitPrefixStep(c, w' + t, w', st);
      assert w + t == [c] + (w' + t) && w + st[0] == [c] + (w' + st[0]) by {
        assert w == [c] + w';
      }
    }
  }

  /** The inductive step of SplitPrefix: one more leading non-space character. */
  lemma SplitPrefixStep(c: char, u: string, w': string, st: seq<string>)
    requires c != ' ' && |st| >= 1
    requires Split(u) == [w' + st[0]] + st[1..]
    ensures Split([c] + u) == [[c] + (w' + st[0])] + st[1..]
  {
    SplitCons(c, u);
  }

  /** Splitting words joined with spaces gives the same words back. */
  lemma {:induction false} SplitJoin(words: seq<string>)
    requires |words| >= 1
    requires forall k :: 0 <= k < |words| ==> ' ' !in words[k]
    ensures Split(Join(words)) == words
  {
    if |words| == 1 {
      SplitPrefix(words[0], "");
      assert words[0] + "" == words[0];
    } else {
      var t := Join(words[1..]);
      SplitJoin(words[1..]);
      SplitPrefix(words[0], " " + t);
      assert words[0] + " " + t == words[0] + (" " + t);
      assert (" " + t)[0] == ' ' && (" " + t)[1..] == t;
      assert Split(" " + t) == [""] + words[1..];
      assert words[0] + "" == words[0];
    }
  }

  /**
   * Two adjacent spaces produce an empty word between them (never the first
   * word, which belongs to the text before the spaces).
   */
  lemma {:induction false} DoubleSpaceGivesEmptyWord(a: string, b: string)
    ensures exists k :: 1 <= k < |Split(a + "  " + b)| && Split(a + "  " + b)[k] == ""
  {
    var s := a + "  " + b;
    if |a| == 0 {
      assert s == "  " + b;
      assert s[1..] == " " + b;
      assert (" " + b)[1..] == b;
      assert Split(s)[1] == "";
    } else {
      var r := Split(s[1..]);
      assert s[1..] == a[1..] + "  " + b;
      DoubleSpaceGivesEmptyWord(a[1..], b);
      var k :| 1 <= k < |r| && r[k] == "";
      if s[0] == ' ' {
        assert Split(s)[k + 1] == "";
      } else {
        assert Split(s)[k] == r[k];
      }
    }
  }

  // ---------------------------------------------------------------------
  // containsCondition(columns, keyword)
  // ---------------------------------------------------------------------

  /** The parameter value `%${word}%`. */
  function Pattern(word: string): string
  {
    "%" + word + "%"
  }

  /**
   * How the clause for word `j` names its placeholder: the source shares
   * the one name `word` among all clauses; `Indexed` gives word `j` the
   * name `word<j>`.
   */
  datatype Naming = Shared | Indexed

  function ParamName(naming: Naming, j: nat): Placeholder
  {
    match naming
    case Shared => Placeholder("word", None)
    case Indexed => Placeholder("word", Some(j))
  }

  /** A clause carries the name and value of one of the words. */
  ghost predicate FitsWord(c: Clause, words: seq<string>, naming: Naming)
  {
    exists j :: 0 <= j < |words| && c.name == ParamName(naming, j) && c.param == Str(Pattern(words[j]))
  }

  /** One column against each word in order. */
  function WordClauses(column: string, words: seq<string>, naming: Naming): (r: seq<Clause>)
    ensures |r| == |words|
    ensures forall j :: 0 <= j < |words| ==>
      r[j] == Clause(column, Eq, ParamName(naming, j), Str(Pattern(words[j])))
  {
    if |words| == 0 then []
    else
      var j := |words| - 1;
      WordClauses(column, words[..j], naming) + [Clause(column, Eq, ParamName(naming, j), Str(Pattern(words[j])))]
  }

  /** For each column in order, every word in order. */
  function ColumnClauses(columns: seq<string>, words: seq<string>, naming: Naming): seq<Clause>
  {
    if |columns| == 0 then []
    else WordClauses(columns[0], words, naming) + ColumnClauses(columns[1..], words, naming)
  }

  /** One clause per column and word. */
  lemma {:induction false} ClauseCount(columns: seq<string>, words: seq<string>, naming: Naming)
    ensures |ColumnClauses(columns, words, naming)| == |columns| * |words|
  {
    if |columns| > 0 {
      ClauseCount(columns[1..], words, naming);
      assert |words| + (|columns| - 1) * |words| == |columns| * |words|;
    }
  }

  /** Every clause is an equality on one of the columns. */
  lemma {:induction false} ClauseColumns(columns: seq<string>, words: seq<string>, naming: Naming)
    ensures forall k :: 0 <= k < |ColumnClauses(columns, words, naming)| ==>
      ColumnClauses(columns, words, naming)[k].op == Eq && ColumnClauses(columns, words, naming)[k].column in columns
  {
    if |columns| > 0 {
      ClauseColumns(columns[1..], words, naming);
      var first := WordClauses(columns[0], words, naming);
      var rest := ColumnClauses(columns[1..], words, naming);
      var r: seq<Clause> := first + rest;
      forall k | 0 <= k < |r|
        ensures r[k].op == Eq && r[k].column in columns
      {
        if k < |first| {
          assert r[k] == first[k];
        } else {
          assert r[k] == rest[k - |first|];
          assert rest[k - |first|].column in columns[1..];
        }
      }
    }
  }

  /** Adding a column appends its clauses: the order of the source's nested loops. */
  lemma {:induction false} ColumnClausesSnoc(columns: seq<string>, column: string, words: seq<string>, naming: Naming)
    ensures ColumnClauses(columns + [column], words, naming)
            == ColumnClauses(columns, words, naming) + WordClauses(column, words, naming)
  {
    if |columns| > 0 {
      assert (columns + [column])[1..] == columns[1..] + [column];
      ColumnClausesSnoc(columns[1..], column, words, naming);
    } else {
      assert columns + [column] == [column];
    }
  }

  /** Every clause carries the name and value of one of the words. */
  lemma {:induction false} ClausesFitWords(columns: seq<string>, words: seq<string>, naming: Naming)
    ensures forall k :: 0 <= k < |ColumnClauses(columns, words, naming)| ==>
      FitsWord(ColumnClauses(columns, words, naming)[k], words, naming)
  {
    if |columns| > 0 {
      ClausesFitWords(columns[1..], words, naming);
      var first := WordClauses(columns[0], words, naming);
      var rest := ColumnClauses(columns[1..], words, naming);
      var r := ColumnClauses(columns, words, naming);
      assert r == first + rest;
      forall k | 0 <= k < |r|
        ensures FitsWord(r[k], words, naming)
      {
        if k < |first| {
          assert r[k] == first[k];
          assert first[k].name == ParamName(naming, k) && first[k].param == Str(Pattern(words[k]));
        } else {
          assert r[k] == rest[k - |first|];
        }
      }
    }
  }

  /** Clause `i * |words| + j` pairs column `i` with word `j`: column-major order. */
  lemma {:induction false} ClauseAt(columns: seq<string>, words: seq<string>, naming: Naming, i: int, j: int)
    requires 0 <= i < |columns| && 0 <= j < |words|
    ensures 0 <= i * |words| + j < |ColumnClauses(columns, words, naming)|
    ensures ColumnClauses(columns, words, naming)[i * |words| + j]
            == Clause(columns[i], Eq, ParamName(naming, j), Str(Pattern(words[j])))
  {
    var first := WordClauses(columns[0], words, naming);
    var rest := ColumnClauses(columns[1..], words, naming);
    if i > 0 {
      ClauseAt(columns[1..], words, naming, i - 1, j);
      assert |words| + ((i - 1) * |words| + j) == i * |words| + j;
      assert (first + rest)[|first| + ((i - 1) * |words| + j)] == rest[(i - 1) * |words| + j];
    } else {
      assert (first + rest)[j] == first[j];
    }
  }

  /** The last clause pairs the last column with the last word. */
  lemma {:induction false} LastClause(columns: seq<string>, words: seq<string>, naming: Naming)
    requires |columns| > 0 && |words| > 0
    ensures var cs := ColumnClauses(columns, words, naming);
      && |cs| > 0
      && cs[|cs| - 1] == Clause(columns[|columns| - 1], Eq, ParamName(naming, |words| - 1), Str(Pattern(words[|words| - 1])))
  {
    var first := WordClauses(columns[0], words, naming);
    var rest := ColumnClauses(columns[1..], words, naming);
    if |columns| > 1 {
      LastClause(columns[1..], words, naming);
      assert (first + rest)[|first| + |rest| - 1] == rest[|rest| - 1];
    } else {
      assert rest == [];
      assert (first + rest)[|first| - 1] == first[|first| - 1];
    }
  }

  /**
   * `containsCondition(columns, keyword)`, as written: every clause uses the
   * placeholder name `word`.
   */
  function ContainsCondition(columns: seq<string>, keyword: string): (r: Condition)
    ensures r == Empty <==> |keyword| == 0
    ensures !r.Where?
    ensures r.AnyOf? ==> |r.clauses| == |columns| * |Split(keyword)|
    ensures r.AnyOf? ==> forall k :: 0 <= k < |r.clauses| ==>
      r.clauses[k].op == Eq && r.clauses[k].column in columns && r.clauses[k].name == Placeholder("word", None)
  {
    if |keyword| == 0 then Empty
    else
      var r := ColumnClauses(columns, Split(keyword), Shared);
      ClauseCount(columns, Split(keyword), Shared);
      ClauseColumns(columns, Split(keyword), Shared);
      ClausesFitWords(columns, Split(keyword), Shared);
      assert forall k :: 0 <= k < |r| ==> r[k].name == Placeholder("word", None) by {
        forall k | 0 <= k < |r| ensures r[k].name == Placeholder("word", None) {
          assert FitsWord(r[k], Split(keyword), Shared);
        }
      }
      AnyOf(r)
  }

  // ---------------------------------------------------------------------
  // Parameter binding: one value per name for the whole query
  // ---------------------------------------------------------------------

  /** The query's parameters after registering the clauses in order: a later value replaces an earlier one of the same name. */
  function Bind(clauses: seq<Clause>): (params: map<Placeholder, JsValue>)
    ensures forall k :: 0 <= k < |clauses| ==> clauses[k].name in params
  {
    if |clauses| == 0 then map[]
    else
      var last := clauses[|clauses| - 1];
      Bind(clauses[..|clauses| - 1])[last.name := last.param]
  }

  /** Clauses that share a name all see the value of the last of them. */
  lemma {:induction false} BindSharedName(clauses: seq<Clause>, name: Placeholder)
    requires |clauses| > 0
    requires forall k :: 0 <= k < |clauses| ==> clauses[k].name == name
    ensures Bind(clauses)[name] == clauses[|clauses| - 1].param
  {
  }

  /** When equal names always carry equal values, every clause sees its own value. */
  lemma {:induction false} BindConsistent(clauses: seq<Clause>)
    requires forall k, l ::
      (0 <= k < |clauses| && 0 <= l < |clauses| && clauses[k].name == clauses[l].name)
      ==> clauses[k].param == clauses[l].param
    ensures forall k :: 0 <= k < |clauses| ==> Bind(clauses)[clauses[k].name] == clauses[k].param
  {
    if |clauses| > 0 {
      var n := |clauses| - 1;
      var init := clauses[..n];
      BindConsistent(init);
      forall k | 0 <= k < |clauses|
        ensures Bind(clauses)[clauses[k].name] == clauses[k].param
      {
        if clauses[k].name != clauses[n].name {
          assert init[k] == clauses[k];
        }
      }
    }
  }

  /**
   * As written, the query binds one value for `word`: the pattern of the
   * last word. Every clause is compared with that one pattern.
   */
  lemma SharedNameBindsLastWord(columns: seq<string>, keyword: string)
    requires |columns| > 0 && |keyword| > 0
    ensures var cs := ContainsCondition(columns, keyword).clauses;
      var words := Split(keyword);
      forall k :: 0 <= k < |cs| ==> Bind(cs)[cs[k].name] == Str(Pattern(words[|words| - 1]))
  {
    var words := Split(keyword);
    var cs := ContainsCondition(columns, keyword).clauses;
    LastClause(columns, words, Shared);
    BindSharedName(cs, Placeholder("word", None));
  }

  /** The keyword `a b` splits into `a` and `b`. */
  lemma SplitTwoWords()
    ensures Split("a b") == ["a", "b"]
  {
    var s := "a b";
    assert s == ['a'] + " b" && " b" == [' '] + "b" && "b" == ['b'] + "";
    SplitCons('b', "");
    assert ['b'] + "" == "b";
    assert Split("b") == ["b"];
    SplitSpace("b");
    assert Split(" b") == ["", "b"];
    SplitCons('a', " b");
    assert ['a'] + "" == "a";
  }

  /** For the keyword `a b` the first clause is handed `%a%` but compared with `%b%`. */
  lemma SharedNameLosesFirstWord()
    ensures var cs := ContainsCondition(["title"], "a b").clauses;
      && |cs| == 2
      && cs[0].param == Str("%a%")
      && Bind(cs)[cs[0].name] == Str("%b%")
  {
    SplitTwoWords();
    ClauseAt(["title"], ["a", "b"], Shared, 0, 0);
    SharedNameBindsLastWord(["title"], "a b");
  }

  /** Indexed names never pair one name with two different values. */
  lemma IndexedConsistent(words: seq<string>, c: Clause, d: Clause)
    requires FitsWord(c, words, Indexed) && FitsWord(d, words, Indexed) && c.name == d.name
    ensures c.param == d.param
  {
  }

  /** Clauses that each carry an indexed word's name and value are each bound to their own value. */
  lemma {:induction false} IndexedBindsOwn(cs: seq<Clause>, words: seq<string>)
    requires forall l :: 0 <= l < |cs| ==> FitsWord(cs[l], words, Indexed)
    ensures forall k :: 0 <= k < |cs| ==> Bind(cs)[cs[k].name] == cs[k].param
  {
    forall k, l | 0 <= k < |cs| && 0 <= l < |cs| && cs[k].name == cs[l].name
      ensures cs[k].param == cs[l].param
    {
      IndexedConsistent(words, cs[k], cs[l]);
    }
    BindConsistent(cs);
  }

  /**
   * The evidently intended builder: one placeholder name per word, so
   * every clause is compared with its own word's pattern.
   */
  function ContainsConditionIndexed(columns: seq<string>, keyword: string): (r: Condition)
    ensures r == Empty <==> |keyword| == 0
    ensures !r.Where?
    ensures r.AnyOf? ==> |r.clauses| == |columns| * |Split(keyword)|
    ensures r.AnyOf? ==> forall k :: 0 <= k < |r.clauses| ==>
      r.clauses[k].op == Eq && r.clauses[k].column in columns
      && Bind(r.clauses)[r.clauses[k].name] == r.clauses[k].param
  {
    if |keyword| == 0 then Empty
    else
      var cs := ColumnClauses(columns, Split(keyword), Indexed);
      ClauseCount(columns, Split(keyword), Indexed);
      ClauseColumns(columns, Split(keyword), Indexed);
      ClausesFitWords(columns, Split(keyword), Indexed);
      IndexedBindsOwn(cs, Split(keyword));
      AnyOf(cs)
  }

  /** Under indexed names, the name of word `j` is bound to word `j`'s pattern. */
  lemma IndexedLookup(cs: seq<Clause>, words: seq<string>, k: int, j: nat)
    requires forall l :: 0 <= l < |cs| ==> FitsWord(cs[l], words, Indexed)
    requires 0 <= k < |cs| && cs[k].name == Placeholder("word", Some(j))
    ensures 0 <= j < |words| && Bind(cs)[Placeholder("word", Some(j))] == Str(Pattern(words[j]))
  {
    IndexedBindsOwn(cs, words);
    assert FitsWord(cs[k], words, Indexed);
  }

  /** The clause for column `i` and word `j` carries the name `word` + `j` and is bound to word `j`'s pattern. */
  lemma IndexedClauseAt(columns: seq<string>, words: seq<string>, i: int, j: int)
    requires 0 <= i < |columns| && 0 <= j < |words|
    ensures var cs := ColumnClauses(columns, words, Indexed);
      var k := i * |words| + j;
      && 0 <= k < |cs|
      && cs[k] == Clause(columns[i], Eq, Placeholder("word", Some(j)), Str(Pattern(words[j])))
      && Bind(cs)[Placeholder("word", Some(j))] == Str(Pattern(words[j]))
  {
    ClauseAt(columns, words, Indexed, i, j);
    var k :| k == i * |words| + j;
    ClausesFitWords(columns, words, Indexed);
    IndexedLookup(ColumnClauses(columns, words, Indexed), words, k, j);
  }

  /** Under the indexed names, the clause for column `i` and word `j` is compared with word `j`'s pattern. */
  lemma IndexedBindsOwnWord(columns: seq<string>, keyword: string, i: int, j: int)
    requires |keyword| > 0 && 0 <= i < |columns| && 0 <= j < |Split(keyword)|
    ensures var cs := ContainsConditionIndexed(columns, keyword).clauses;
      var k := i * |Split(keyword)| + j;
      && k < |cs|
      && cs[k] == Clause(columns[i], Eq, Placeholder("word", Some(j)), Str(Pattern(Split(keyword)[j])))
      && Bind(cs)[Placeholder("word", Some(j))] == Str(Pattern(Split(keyword)[j]))
  {
    assert ContainsConditionIndexed(columns, keyword).clauses == ColumnClauses(columns, Split(keyword), Indexed);
    IndexedClauseAt(columns, Split(keyword), i, j);
  }

  /** The inner `forEach`: one column against every word, appended in order. */
  method AppendWordClauses(clauses: seq<Clause>, column: string, words: seq<string>) returns (out: seq<Clause>)
    ensures out == clauses + WordClauses(column, words, Shared)
  {
    out := clauses;
    var j := 0;
    while j < |words|
      invariant 0 <= j <= |words|
      invariant out == clauses + WordClauses(column, words[..j], Shared)
    {
      assert words[..j + 1][..j] == words[..j];
      out := out + [Clause(column, Eq, Placeholder("word", None), Str(Pattern(words[j])))];
      j := j + 1;
    }
    assert words[..j] == words;
  }

  /** The outer `forEach` over the columns. */
  method BuildContainsClauses(columns: seq<string>, words: seq<string>) returns (clauses: seq<Clause>)
    ensures clauses == ColumnClauses(columns, words, Shared)
  {
    clauses := [];
    var i := 0;
    while i < |columns|
      invariant 0 <= i <= |columns|
      invariant clauses == ColumnClauses(columns[..i], words, Shared)
    {
      clauses := AppendWordClauses(clauses, columns[i], words);
      assert columns[..i + 1] == columns[..i] + [columns[i]];
      ColumnClausesSnoc(columns[..i], columns[i], words, Shared);
      i := i + 1;
    }
    assert columns[..i] == columns;
  }
}
