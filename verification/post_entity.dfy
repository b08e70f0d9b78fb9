/**
 * The `Post` entity: the stored record, and the per-field validation
 * decorators applied to the request fields author, password, title and
 * content. Every decorator is checked; failures are collected, not
 * short-circuited.
 */
module PostEntity {
  import opened JsValues

  /** A stored post; `password` holds the hash, never the plaintext. */
  datatype Post = Post(id: int, author: string, password: string, title: string, content: string)

  datatype Field = Author | Password | Title | Content

  /** The field-level decorators in use: IsString, IsNotEmpty, MinLength(n), MaxLength(n). */
  datatype Constraint = IsString | IsNotEmpty | MinLength(min: nat) | MaxLength(max: nat)

  datatype Violation = Violation(field: Field, constraint: Constraint)

  /** No element occurs twice. */
  predicate Distinct<T(==)>(s: seq<T>)
  {
    forall i, j :: 0 <= i < j < |s| ==> s[i] != s[j]
  }

  /** The request body before validation: each field is any JavaScript value. */
  datatype PostInput = PostInput(author: JsValue, password: JsValue, title: JsValue, content: JsValue)

  /** The decorators on each field, top to bottom: every field must be a string, and no decorator is repeated. */
  function Constraints(f: Field): (cs: seq<Constraint>)
    ensures |cs| >= 2 && cs[0] == IsString
    ensures Distinct(cs)
    ensures (IsNotEmpty in cs) <==> f != Password
    ensures MinLength(6) in cs <==> f == Password
  {
    match f
    case Author => [IsString, IsNotEmpty]
    case Password => [IsString, MinLength(6)]
    case Title => [IsString, IsNotEmpty, MaxLength(20)]
    case Content => [IsString, IsNotEmpty, MaxLength(200)]
  }

  /** Whether one decorator accepts a value. */
  function Holds(c: Constraint, v: JsValue): (ok: bool)
    // a non-string passes only IsNotEmpty, and only when it is not null or undefined
    ensures !v.Str? ==> (ok <==> c == IsNotEmpty && v != Null && v != Undefined)
    // on strings, IsNotEmpty is the one-character minimum and the bounds compare the length
    ensures v.Str? && c.IsNotEmpty? ==> (ok <==> |v.s| >= 1)
    ensures v.Str? && c.MinLength? ==> (ok <==> |v.s| >= c.min)
    ensures v.Str? && c.MaxLength? ==> (ok <==> |v.s| <= c.max)
    ensures c == IsString ==> (ok <==> v.Str?)
  {
    match c
    case IsString => v.Str?
    case IsNotEmpty => v != Str("") && v != Null && v != Undefined
    case MinLength(n) => v.Str? && |v.s| >= n
    case MaxLength(n) => v.Str? && |v.s| <= n
  }

  function FieldValue(p: PostInput, f: Field): JsValue
  {
    match f
    case Author => p.author
    case Password => p.password
    case Title => p.title
    case Content => p.content
  }

  /** The violations of one field: its failing decorators, in order, each reported once. */
  function Failing(f: Field, cs: seq<Constraint>, v: JsValue): (r: seq<Violation>)
    ensures |r| <= |cs|
    ensures forall x :: x in r <==> x.field == f && x.constraint in cs && !Holds(x.constraint, v)
    ensures Distinct(cs) ==> Distinct(r)
  {
    if |cs| == 0 then []
    else
      var rest := Failing(f, cs[1..], v);
      assert forall c :: c in cs <==> c == cs[0] || c in cs[1..];
      if Holds(cs[0], v) then rest
      else
        assert Distinct(cs) ==> Violation(f, cs[0]) !in rest;
        [Violation(f, cs[0])] + rest
  }

  /** Every violated decorator of every field, field after field, each reported once. */
  function Violations(p: PostInput): (r: seq<Violation>)
    ensures forall x :: x in r <==>
      x.constraint in Constraints(x.field) && !Holds(x.constraint, FieldValue(p, x.field))
    ensures Distinct(r)
  {
    var a := Failing(Author, Constraints(Author), p.author);
    var b := Failing(Password, Constraints(Password), p.password);
    var c := Failing(Title, Constraints(Title), p.title);
    var d := Failing(Content, Constraints(Content), p.content);
    DistinctConcat(c, d);
    DistinctConcat(b, c + d);
    DistinctConcat(a, b + (c + d));
    a + (b + (c + d))
  }

  /** Joining two repetition-free lists with no common element repeats nothing. */
  lemma DistinctConcat<T>(a: seq<T>, b: seq<T>)
    requires Distinct(a) && Distinct(b) && forall x :: x in a ==> x !in b
    ensures Distinct(a + b)
  {
    forall i, j | 0 <= i < j < |a + b|
      ensures (a + b)[i] != (a + b)[j]
    {
      if j >= |a| && i < |a| {
        assert (a + b)[i] in a && (a + b)[j] in b;
      }
    }
  }

  /** The rule each field enforces, stated directly. */
  predicate FieldAccepts(f: Field, v: JsValue)
  {
    match f
    case Author => v.Str? && |v.s| >= 1
    case Password => v.Str? && |v.s| >= 6
    case Title => v.Str? && 1 <= |v.s| <= 20
    case Content => v.Str? && 1 <= |v.s| <= 200
  }

  /** A field has a violation exactly when its value breaks the field's rule. */
  lemma FieldRule(p: PostInput, f: Field)
    ensures (exists x :: x in Violations(p) && x.field == f) <==> !FieldAccepts(f, FieldValue(p, f))
  {
    var v := FieldValue(p, f);
    if !FieldAccepts(f, v) {
      var c := FirstBroken(f, v);
      assert Violation(f, c) in Violations(p);
    }
  }

  /** A decorator of field `f` that rejects `v`, when the field's rule is broken. */
  function FirstBroken(f: Field, v: JsValue): (c: Constraint)
    requires !FieldAccepts(f, v)
    ensures c in Constraints(f) && !Holds(c, v)
  {
    if !v.Str? then IsString
    else
      match f
      case Author => IsNotEmpty
      case Password => MinLength(6)
      case Title => if |v.s| == 0 then IsNotEmpty else MaxLength(20)
      case Content => if |v.s| == 0 then IsNotEmpty else MaxLength(200)
  }

  /** No violation at all exactly when every field keeps its rule. */
  lemma NoViolations(p: PostInput)
    ensures Violations(p) == [] <==> forall f :: FieldAccepts(f, FieldValue(p, f))
  {
    if Violations(p) != [] {
      var x := Violations(p)[0];
      FieldRule(p, x.field);
    } else {
      forall f ensures FieldAccepts(f, FieldValue(p, f)) {
        FieldRule(p, f);
      }
    }
  }

  /** An empty string breaks exactly one decorator of each field. */
  lemma EmptyStringBreaksOne(f: Field)
    ensures Failing(f, Constraints(f), Str("")) ==
      [Violation(f, if f == Password then MinLength(6) else IsNotEmpty)]
  {
    var e := Str("");
    match f
    case Author =>
      assert Failing(f, [IsNotEmpty], e) == [Violation(f, IsNotEmpty)];
    case Password =>
      assert Failing(f, [MinLength(6)], e) == [Violation(f, MinLength(6))];
    case Title =>
      assert Failing(f, [MaxLength(20)], e) == [];
      assert Failing(f, [IsNotEmpty, MaxLength(20)], e) == [Violation(f, IsNotEmpty)];
    case Content =>
      assert Failing(f, [MaxLength(200)], e) == [];
      assert Failing(f, [IsNotEmpty, MaxLength(200)], e) == [Violation(f, IsNotEmpty)];
  }

  /** With all four fields empty strings, each field reports exactly one violation. */
  lemma AllEmptyGivesFour()
    ensures Violations(PostInput(Str(""), Str(""), Str(""), Str(""))) ==
      [Violation(Author, IsNotEmpty), Violation(Password, MinLength(6)),
       Violation(Title, IsNotEmpty), Violation(Content, IsNotEmpty)]
  {
    EmptyStringBreaksOne(Author);
    EmptyStringBreaksOne(Password);
    EmptyStringBreaksOne(Title);
    EmptyStringBreaksOne(Content);
  }

  /** A one-character title and a one-character content raise no violation: the entity has no two-character minimum. */
  lemma OneCharacterTitleAccepted()
    ensures Violations(PostInput(Str("루비"), Str("qwerqwe12"), Str("게"), Str("게"))) == []
  {
    var p := PostInput(Str("루비"), Str("qwerqwe12"), Str("게"), Str("게"));
    forall f ensures FieldAccepts(f, FieldValue(p, f)) {
    }
    NoViolations(p);
  }
}
