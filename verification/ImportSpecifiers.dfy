/** S1128: removing one unused name from an import declaration, as a range of its text.
    `packages/jsts/src/rules/S1128/rule.ts`. The ranges begin and end at token boundaries; of the text between two
    tokens it only matters whether there is any. */
module ImportSpecifiers {
  import opened Common

  datatype Token =
    | Import | Type | From | As | Comma | LBrace | RBrace | Star
    | Name(name: string) | Source(source: string)

  /** `[type] imported [as local]` */
  datatype Specifier = Specifier(isType: bool, imported: string, local: Option<string>)

  datatype Clause = NoClause | Namespace(local: string) | Named(specifiers: seq<Specifier>, trailingComma: bool)

  datatype ImportDeclaration = ImportDeclaration(isType: bool, default: Option<string>, clause: Clause, source: string)
  {
    predicate Valid() {
      && (clause.Named? && clause.trailingComma ==> clause.specifiers != [])
    }

    /** `getDeclaredVariables(importDecl).length` */
    function Variables(): nat {
      (if default.Some? then 1 else 0) +
      match clause
      case NoClause => 0
      case Namespace(_) => 1
      case Named(specifiers, _) => |specifiers|
    }
  }

  function PrintSpecifier(s: Specifier): seq<Token> {
    (if s.isType then [Type] else []) + [Name(s.imported)] + (if s.local.Some? then [As, Name(s.local.value)] else [])
  }

  /** Specifiers separated by commas. */
  function PrintSpecifiers(ss: seq<Specifier>): seq<Token> {
    if ss == [] then []
    else if |ss| == 1 then PrintSpecifier(ss[0])
    else PrintSpecifier(ss[0]) + ([Comma] + PrintSpecifiers(ss[1..]))
  }

  /** Everything behind the last specifier in braces. */
  function Suffix(d: ImportDeclaration, trailing: bool): seq<Token> {
    if trailing then [Comma, RBrace, From, Source(d.source)] else [RBrace, From, Source(d.source)]
  }

  function PrintClause(d: ImportDeclaration): seq<Token> {
    match d.clause
    case NoClause => [From, Source(d.source)]
    case Namespace(local) => [Star, As, Name(local), From, Source(d.source)]
    case Named(ss, trailing) => [LBrace] + (PrintSpecifiers(ss) + Suffix(d, trailing))
  }

  /** `import` and `type`. */
  function PrintHead(d: ImportDeclaration): seq<Token> {
    if d.isType then [Import, Type] else [Import]
  }

  /** The default binding, with a comma if more follows. */
  function PrintDefault(d: ImportDeclaration): seq<Token> {
    if d.default.None? then []
    else if d.clause == NoClause then [Name(d.default.value)]
    else [Name(d.default.value), Comma]
  }

  /** A declaration that binds something. */
  function Print(d: ImportDeclaration): seq<Token> {
    PrintHead(d) + (PrintDefault(d) + PrintClause(d))
  }

  datatype SpecifierResult = NoSpecifier | OneSpecifier(s: Specifier, rest: seq<Token>)

  function ParseName(isType: bool, ts: seq<Token>): (r: SpecifierResult)
    ensures r.OneSpecifier? ==> |r.rest| < |ts|
  {
    if ts == [] || !ts[0].Name? then NoSpecifier
    else if |ts| > 2 && ts[1] == As && ts[2].Name? then
      OneSpecifier(Specifier(isType, ts[0].name, Some(ts[2].name)), ts[3..])
    else OneSpecifier(Specifier(isType, ts[0].name, None), ts[1..])
  }

  function ParseSpecifier(ts: seq<Token>): (r: SpecifierResult)
    ensures r.OneSpecifier? ==> |r.rest| < |ts|
  {
    if ts != [] && ts[0] == Type then ParseName(true, ts[1..]) else ParseName(false, ts)
  }

  datatype ClauseResult = Bad | Parsed(clause: Clause, rest: seq<Token>)

  /** After `{` and the specifiers `done`. */
  function ParseNamed(ts: seq<Token>, done: seq<Specifier>): ClauseResult
    decreases |ts|
  {
    if ts != [] && ts[0] == RBrace then Parsed(Named(done, done != []), ts[1..])
    else
      match ParseSpecifier(ts)
      case NoSpecifier => Bad
      case OneSpecifier(s, rest) =>
        if rest == [] then Bad
        else if rest[0] == RBrace then Parsed(Named(done + [s], false), rest[1..])
        else if rest[0] == Comma then ParseNamed(rest[1..], done + [s])
        else Bad
  }

  function ParseClause(ts: seq<Token>): ClauseResult {
    if |ts| >= 3 && ts[0] == Star && ts[1] == As && ts[2].Name? then Parsed(Namespace(ts[2].name), ts[3..])
    else if ts != [] && ts[0] == LBrace then ParseNamed(ts[1..], [])
    else Bad
  }

  function ParseSource(isType: bool, default: Option<string>, clause: Clause, ts: seq<Token>)
    : Option<ImportDeclaration>
  {
    if |ts| == 2 && ts[0] == From && ts[1].Source? then Some(ImportDeclaration(isType, default, clause, ts[1].source))
    else None
  }

  function ParseBindings(isType: bool, default: Option<string>, ts: seq<Token>): Option<ImportDeclaration> {
    match ParseClause(ts)
    case Bad => None
    case Parsed(clause, rest) => ParseSource(isType, default, clause, rest)
  }

  function ParseAfterHead(isType: bool, ts: seq<Token>): Option<ImportDeclaration> {
    if |ts| == 1 && ts[0].Source? then Some(ImportDeclaration(isType, None, NoClause, ts[0].source))
    else if ts != [] && ts[0].Name? then
      if |ts| > 1 && ts[1] == Comma then ParseBindings(isType, Some(ts[0].name), ts[2..])
      else ParseSource(isType, Some(ts[0].name), NoClause, ts[1..])
    else ParseBindings(isType, None, ts)
  }

  function Parse(ts: seq<Token>): Option<ImportDeclaration> {
    if ts == [] || ts[0] != Import then None
    else if |ts| > 1 && ts[1] == Type then ParseAfterHead(true, ts[2..])
    else ParseAfterHead(false, ts[1..])
  }

  lemma ParsePrintedSpecifier(s: Specifier, rest: seq<Token>)
    requires rest != [] && rest[0] != As
    ensures ParseSpecifier(PrintSpecifier(s) + rest) == OneSpecifier(s, rest)
  {
    var ts := PrintSpecifier(s) + rest;
    var body := if s.isType then ts[1..] else ts;
    assert body == [Name(s.imported)] + (if s.local.Some? then [As, Name(s.local.value)] else []) + rest;
    if s.local.Some? {
      assert body[3..] == rest;
    } else {
      assert body[1..] == rest && body[1] == rest[0];
    }
  }

  /** How `ParseNamed` goes on behind a specifier. */
  function AfterSpecifier(ts: seq<Token>, done: seq<Specifier>): ClauseResult {
    if ts == [] then Bad
    else if ts[0] == RBrace then Parsed(Named(done, false), ts[1..])
    else if ts[0] == Comma then ParseNamed(ts[1..], done)
    else Bad
  }

  lemma ParseNamedStep(s: Specifier, rest: seq<Token>, done: seq<Specifier>)
    requires rest != [] && rest[0] != As
    ensures ParseNamed(PrintSpecifier(s) + rest, done) == AfterSpecifier(rest, done + [s])
  {
    var ts := PrintSpecifier(s) + rest;
    ParsePrintedSpecifier(s, rest);
    assert ts[0] == PrintSpecifier(s)[0] != RBrace;
  }

  lemma ParseNamedMore(ss: seq<Specifier>, done: seq<Specifier>, rest: seq<Token>)
    requires |ss| > 1
    ensures ParseNamed(PrintSpecifiers(ss) + rest, done) == ParseNamed(PrintSpecifiers(ss[1..]) + rest, done + [ss[0]])
  {
    var more := PrintSpecifiers(ss[1..]) + rest;
    assert PrintSpecifiers(ss) + rest == PrintSpecifier(ss[0]) + ([Comma] + more);
    ParseNamedStep(ss[0], [Comma] + more, done);
    assert ([Comma] + more)[1..] == more;
  }

  lemma Shift<T>(done: seq<T>, s: seq<T>)
    requires s != []
    ensures done + [s[0]] + s[1..] == done + s
  {
  }

  lemma {:induction false} ParsePrintedSpecifiers(ss: seq<Specifier>, done: seq<Specifier>, rest: seq<Token>)
    requires ss != [] && rest != [] && rest[0] != As
    ensures ParseNamed(PrintSpecifiers(ss) + rest, done) == AfterSpecifier(rest, done + ss)
    decreases |ss|
  {
    Shift(done, ss);
    if |ss| == 1 {
      assert done + [ss[0]] + [] == done + [ss[0]];
      ParseNamedStep(ss[0], rest, done);
    } else {
      ParseNamedMore(ss, done, rest);
      ParsePrintedSpecifiers(ss[1..], done + [ss[0]], rest);
    }
  }

  lemma ParseSuffix(d: ImportDeclaration, trailing: bool, done: seq<Specifier>)
    requires trailing ==> done != []
    ensures AfterSpecifier(Suffix(d, trailing), done) == Parsed(Named(done, trailing), [From, Source(d.source)])
    ensures ParseNamed(Suffix(d, false), []) == Parsed(Named([], false), [From, Source(d.source)])
  {
    var tail := [From, Source(d.source)];
    assert Suffix(d, false)[1..] == tail;
    if trailing {
      assert Suffix(d, true)[1..] == Suffix(d, false);
    }
  }

  lemma ParsePrintedClause(d: ImportDeclaration)
    requires d.Valid() && d.clause != NoClause
    ensures ParseClause(PrintClause(d)) == Parsed(d.clause, [From, Source(d.source)])
  {
    if d.clause.Namespace? {
      assert PrintClause(d)[3..] == [From, Source(d.source)];
    } else {
      var ss, end := d.clause.specifiers, Suffix(d, d.clause.trailingComma);
      assert ([LBrace] + (PrintSpecifiers(ss) + end))[1..] == PrintSpecifiers(ss) + end;
      ParseSuffix(d, d.clause.trailingComma, ss);
      if ss == [] {
        assert [] + end == end;
      } else {
        ParsePrintedSpecifiers(ss, [], end);
        assert [] + ss == ss;
      }
    }
  }

  lemma ParseHead(d: ImportDeclaration, body: seq<Token>)
    requires body != [] && body[0] != Type
    ensures Parse(PrintHead(d) + body) == ParseAfterHead(d.isType, body)
  {
    var ts := PrintHead(d) + body;
    assert ts[|PrintHead(d)|..] == body && ts[|PrintHead(d)|] == body[0];
  }

  lemma ParseOnlyDefault(isType: bool, name: string, source: string)
    ensures ParseAfterHead(isType, [Name(name), From, Source(source)])
      == Some(ImportDeclaration(isType, Some(name), NoClause, source))
  {
    assert [Name(name), From, Source(source)][1..] == [From, Source(source)];
  }

  lemma ParseDefaultAnd(isType: bool, name: string, ts: seq<Token>)
    ensures ParseAfterHead(isType, [Name(name), Comma] + ts) == ParseBindings(isType, Some(name), ts)
  {
    assert ([Name(name), Comma] + ts)[2..] == ts;
  }

  lemma ParseBody(d: ImportDeclaration)
    requires d.Valid() && (d.default.Some? || d.clause != NoClause)
    ensures ParseAfterHead(d.isType, PrintDefault(d) + PrintClause(d)) == Some(d)
  {
    if d.clause == NoClause {
      ParseOnlyDefault(d.isType, d.default.value, d.source);
      assert PrintDefault(d) + PrintClause(d) == [Name(d.default.value), From, Source(d.source)];
    } else {
      ParsePrintedClause(d);
      if d.default.Some? {
        ParseDefaultAnd(d.isType, d.default.value, PrintClause(d));
      } else {
        assert PrintDefault(d) + PrintClause(d) == PrintClause(d);
      }
    }
  }

  /** The printer and the parser agree on every import declaration that binds something. */
  lemma ParsePrinted(d: ImportDeclaration)
    requires d.Valid() && (d.default.Some? || d.clause != NoClause)
    ensures Parse(Print(d)) == Some(d)
  {
    ParseBody(d);
    ParseHead(d, PrintDefault(d) + PrintClause(d));
  }

  /** The name to remove. */
  datatype Target = Default | NamespaceName | NamedSpecifier(index: nat)

  predicate IsTarget(d: ImportDeclaration, t: Target) {
    match t
    case Default => d.default.Some?
    case NamespaceName => d.clause.Namespace?
    case NamedSpecifier(i) => d.clause.Named? && i < |d.clause.specifiers|
  }

  /** The declaration without that name; braces that would become empty go too. */
  function Drop(d: ImportDeclaration, t: Target): ImportDeclaration
    requires IsTarget(d, t)
  {
    match t
    case Default => d.(default := None)
    case NamespaceName => d.(clause := NoClause)
    case NamedSpecifier(i) =>
      var ss := d.clause.specifiers;
      d.(clause := if |ss| == 1 then NoClause else d.clause.(specifiers := ss[..i] + ss[i + 1..]))
  }

  /** The token index at which specifier `i` of a list begins. */
  function Offset(ss: seq<Specifier>, i: nat): nat
    requires i <= |ss|
  {
    if i == 0 then 0 else |PrintSpecifier(ss[0])| + 1 + Offset(ss[1..], i - 1)
  }

  /** Where the first specifier in braces begins. */
  function FirstSpecifier(d: ImportDeclaration): nat {
    |PrintHead(d)| + (if d.default.Some? then 2 else 0) + 1
  }

  function SpecifierStart(d: ImportDeclaration, i: nat): nat
    requires d.clause.Named? && i <= |d.clause.specifiers|
  {
    FirstSpecifier(d) + Offset(d.clause.specifiers, i)
  }

  function SpecifierEnd(d: ImportDeclaration, i: nat): nat
    requires d.clause.Named? && i < |d.clause.specifiers|
  {
    SpecifierStart(d, i) + |PrintSpecifier(d.clause.specifiers[i])|
  }

  /** A place in the text, by the token that begins or ends there. */
  datatype Cut = StartOf(token: nat) | EndOf(token: nat)

  /** The range chosen by `getSuggestion`. Only called for declarations of two variables or more. */
  function Cuts(d: ImportDeclaration, t: Target): (Cut, Cut)
    requires IsTarget(d, t) && d.Variables() > 1
  {
    match t
    case Default =>
      var id := |PrintHead(d)|;
      (StartOf(id), StartOf(id + 2))
    case NamespaceName =>
      var specifier := |PrintHead(d)| + 2;
      (StartOf(specifier - 1), EndOf(specifier + 2))
    case NamedSpecifier(i) =>
      if |d.clause.specifiers| == 1 then
        // the default specifier is the first of all
        (EndOf(|PrintHead(d)|), EndOf(SpecifierEnd(d, i)))
      else if i == 0 then (StartOf(SpecifierStart(d, 0)), StartOf(SpecifierStart(d, 1)))
      else (EndOf(SpecifierEnd(d, i - 1) - 1), EndOf(SpecifierEnd(d, i) - 1))
  }

  /** The first token that begins at a place or behind it. */
  function Behind(c: Cut): nat {
    match c
    case StartOf(i) => i
    case EndOf(i) => i + 1
  }

  /** The tokens in the range, from the first one to just after the last one. */
  function Range(d: ImportDeclaration, t: Target): (nat, nat)
    requires IsTarget(d, t) && d.Variables() > 1
  {
    (Behind(Cuts(d, t).0), Behind(Cuts(d, t).1))
  }

  function Remove(ts: seq<Token>, range: (nat, nat)): seq<Token> {
    if range.0 <= range.1 <= |ts| then ts[..range.0] + ts[range.1..] else ts
  }

  lemma RemoveMiddle(a: seq<Token>, b: seq<Token>, c: seq<Token>)
    ensures Remove(a + (b + c), (|a|, |a| + |b|)) == a + c
  {
    var ts := a + (b + c);
    assert ts[..|a|] == a && ts[|a| + |b|..] == c;
  }

  lemma RemoveMiddleOf(ts: seq<Token>, range: (nat, nat), left: seq<Token>, a: seq<Token>, b: seq<Token>, c: seq<Token>)
    requires ts == a + (b + c) && left == a + c && range == (|a|, |a| + |b|)
    ensures Remove(ts, range) == left
  {
    RemoveMiddle(a, b, c);
  }

  lemma {:induction false} PrintSpecifiersAppend(a: seq<Specifier>, b: seq<Specifier>)
    requires a != [] && b != []
    ensures PrintSpecifiers(a + b) == PrintSpecifiers(a) + ([Comma] + PrintSpecifiers(b))
    decreases |a|
  {
    if |a| == 1 {
      assert a + b == [a[0]] + b && (a + b)[1..] == b;
    } else {
      assert (a + b)[1..] == a[1..] + b;
      PrintSpecifiersAppend(a[1..], b);
    }
  }

  /** The specifiers before `i`, with their commas, end where specifier `i` begins. */
  lemma {:induction false} OffsetIsLength(ss: seq<Specifier>, i: nat)
    requires i < |ss|
    ensures Offset(ss, i) == if i == 0 then 0 else |PrintSpecifiers(ss[..i])| + 1
    decreases i
  {
    if i > 0 {
      OffsetIsLength(ss[1..], i - 1);
      assert ss[..i][1..] == ss[1..][..i - 1];
    }
  }

  /** Everything before the first specifier in braces. */
  function Prefix(d: ImportDeclaration): seq<Token> {
    PrintHead(d) + PrintDefault(d) + [LBrace]
  }

  lemma Regroup(a: seq<Token>, b: seq<Token>, c: seq<Token>, d: seq<Token>)
    ensures a + (b + (c + d)) == (a + b + c) + d
  {
  }

  lemma PrintNamed(d: ImportDeclaration)
    requires d.clause.Named?
    ensures Print(d) == Prefix(d) + (PrintSpecifiers(d.clause.specifiers) + Suffix(d, d.clause.trailingComma))
    ensures |Prefix(d)| == FirstSpecifier(d)
  {
    Regroup(PrintHead(d), PrintDefault(d), [LBrace],
            PrintSpecifiers(d.clause.specifiers) + Suffix(d, d.clause.trailingComma));
  }

  /** The declaration around its first specifier, with it and without it. */
  lemma PrintFirst(d: ImportDeclaration)
    requires d.clause.Named? && |d.clause.specifiers| > 1
    ensures var ss := d.clause.specifiers;
            var c := PrintSpecifiers(ss[1..]) + Suffix(d, d.clause.trailingComma);
            Print(d) == Prefix(d) + ((PrintSpecifier(ss[0]) + [Comma]) + c)
            && Print(Drop(d, NamedSpecifier(0))) == Prefix(d) + c
  {
    var ss := d.clause.specifiers;
    var after := Drop(d, NamedSpecifier(0));
    PrintNamed(d);
    PrintNamed(after);
    assert after.clause.specifiers == ss[1..];
    Regroup3(PrintSpecifier(ss[0]), [Comma], PrintSpecifiers(ss[1..]), Suffix(d, d.clause.trailingComma));
  }

  lemma Regroup3(a: seq<Token>, b: seq<Token>, c: seq<Token>, d: seq<Token>)
    ensures (a + (b + c)) + d == (a + b) + (c + d)
  {
  }

  lemma FirstRange(d: ImportDeclaration)
    requires d.clause.Named? && |d.clause.specifiers| > 1
    ensures var b := PrintSpecifier(d.clause.specifiers[0]) + [Comma];
            Range(d, NamedSpecifier(0)) == (|Prefix(d)|, |Prefix(d)| + |b|)
  {
    PrintNamed(d);
    assert Offset(d.clause.specifiers[1..], 0) == 0;
  }

  /** Removing the first of several specifiers with the comma behind it. */
  lemma RemoveFirst(d: ImportDeclaration)
    requires d.clause.Named? && |d.clause.specifiers| > 1
    ensures Remove(Print(d), Range(d, NamedSpecifier(0))) == Print(Drop(d, NamedSpecifier(0)))
  {
    var ss := d.clause.specifiers;
    PrintFirst(d);
    FirstRange(d);
    RemoveMiddleOf(Print(d), Range(d, NamedSpecifier(0)), Print(Drop(d, NamedSpecifier(0))), Prefix(d),
                   PrintSpecifier(ss[0]) + [Comma], PrintSpecifiers(ss[1..]) + Suffix(d, d.clause.trailingComma));
  }

  lemma Pieces<T>(s: seq<T>, i: nat)
    requires i < |s|
    ensures s[..i] + [s[i]] + s[i + 1..] == s
  {
  }

  lemma SplitAt(ss: seq<Specifier>, i: nat)
    requires 0 < i < |ss|
    ensures PrintSpecifiers(ss) == PrintSpecifiers(ss[..i]) + ([Comma] + PrintSpecifier(ss[i])) + CommaAnd(ss[i + 1..])
    ensures PrintSpecifiers(ss[..i] + ss[i + 1..]) == PrintSpecifiers(ss[..i]) + CommaAnd(ss[i + 1..])
  {
    PrintAround(ss[..i], ss[i], ss[i + 1..]);
    Pieces(ss, i);
  }

  /** The declaration around specifier `i`. */
  lemma PrintWith(d: ImportDeclaration, i: nat)
    requires d.clause.Named? && 0 < i < |d.clause.specifiers|
    ensures var ss := d.clause.specifiers;
            var c := CommaAnd(ss[i + 1..]) + Suffix(d, d.clause.trailingComma);
            Print(d) == (Prefix(d) + PrintSpecifiers(ss[..i])) + (([Comma] + PrintSpecifier(ss[i])) + c)
  {
    var ss := d.clause.specifiers;
    PrintNamed(d);
    SplitAt(ss, i);
    Regroup2(Prefix(d), PrintSpecifiers(ss[..i]), [Comma] + PrintSpecifier(ss[i]), CommaAnd(ss[i + 1..]),
             Suffix(d, d.clause.trailingComma));
  }

  /** The declaration once specifier `i` is gone. */
  lemma PrintWithout(d: ImportDeclaration, i: nat)
    requires d.clause.Named? && 0 < i < |d.clause.specifiers|
    ensures var ss := d.clause.specifiers;
            var c := CommaAnd(ss[i + 1..]) + Suffix(d, d.clause.trailingComma);
            Print(Drop(d, NamedSpecifier(i))) == (Prefix(d) + PrintSpecifiers(ss[..i])) + c
  {
    var ss := d.clause.specifiers;
    PrintNamed(Drop(d, NamedSpecifier(i)));
    SplitAt(ss, i);
    Regroup2(Prefix(d), PrintSpecifiers(ss[..i]), [], CommaAnd(ss[i + 1..]), Suffix(d, d.clause.trailingComma));
  }

  /** Removing a later specifier with the comma before it. */
  lemma RemoveLater(d: ImportDeclaration, i: nat)
    requires d.clause.Named? && 0 < i < |d.clause.specifiers|
    ensures Remove(Print(d), Range(d, NamedSpecifier(i))) == Print(Drop(d, NamedSpecifier(i)))
  {
    var a, b, c := AroundLater(d, i);
    RemoveMiddle(a, b, c);
  }

  lemma AroundLater(d: ImportDeclaration, i: nat) returns (a: seq<Token>, b: seq<Token>, c: seq<Token>)
    requires d.clause.Named? && 0 < i < |d.clause.specifiers|
    ensures Print(d) == a + (b + c) && Print(Drop(d, NamedSpecifier(i))) == a + c
    ensures Range(d, NamedSpecifier(i)) == (|a|, |a| + |b|)
    ensures a != [] && b != [] && c != [] && (c[0] == Comma || c[0] == RBrace)
  {
    var ss := d.clause.specifiers;
    a, b := Prefix(d) + PrintSpecifiers(ss[..i]), [Comma] + PrintSpecifier(ss[i]);
    c := CommaAnd(ss[i + 1..]) + Suffix(d, d.clause.trailingComma);
    PrintWith(d, i);
    PrintWithout(d, i);
    LaterBounds(d, i, a, b);
  }

  lemma LaterBounds(d: ImportDeclaration, i: nat, a: seq<Token>, b: seq<Token>)
    requires d.clause.Named? && 0 < i < |d.clause.specifiers|
    requires a == Prefix(d) + PrintSpecifiers(d.clause.specifiers[..i])
    requires b == [Comma] + PrintSpecifier(d.clause.specifiers[i])
    ensures Range(d, NamedSpecifier(i)) == (|a|, |a| + |b|)
  {
    LaterRange(d, i);
    PrefixLength(d);
  }

  lemma PrefixLength(d: ImportDeclaration)
    requires d.clause.Named?
    ensures |Prefix(d)| == FirstSpecifier(d)
  {
  }

  lemma Regroup2(p: seq<Token>, a: seq<Token>, b: seq<Token>, c: seq<Token>, s: seq<Token>)
    ensures p + (a + b + c + s) == (p + a) + (b + (c + s))
    ensures p + (a + c + s) == (p + a) + (c + s)
  {
  }

  function CommaAnd(ss: seq<Specifier>): seq<Token> {
    if ss == [] then [] else [Comma] + PrintSpecifiers(ss)
  }

  lemma PrintAround(before: seq<Specifier>, at: Specifier, behind: seq<Specifier>)
    requires before != []
    ensures PrintSpecifiers(before + [at] + behind) ==
      PrintSpecifiers(before) + ([Comma] + PrintSpecifier(at)) + CommaAnd(behind)
    ensures PrintSpecifiers(before + behind) == PrintSpecifiers(before) + CommaAnd(behind)
  {
    PrintSpecifiersAppend(before, [at]);
    assert PrintSpecifiers([at]) == PrintSpecifier(at);
    if behind == [] {
      assert before + [at] + behind == before + [at] && before + behind == before;
    } else {
      PrintSpecifiersAppend(before + [at], behind);
      PrintSpecifiersAppend(before, behind);
    }
  }

  /** The range begins where the preceding specifier ends. */
  lemma LaterRange(d: ImportDeclaration, i: nat)
    requires d.clause.Named? && 0 < i < |d.clause.specifiers|
    ensures var a := FirstSpecifier(d) + |PrintSpecifiers(d.clause.specifiers[..i])|;
            Range(d, NamedSpecifier(i)) == (a, a + 1 + |PrintSpecifier(d.clause.specifiers[i])|)
  {
    var ss := d.clause.specifiers;
    OffsetIsLength(ss, i);
    OffsetIsLength(ss, i - 1);
    if i == 1 {
      assert ss[..1] == [ss[0]];
    } else {
      PrintSpecifiersAppend(ss[..i - 1], [ss[i - 1]]);
      assert ss[..i] == ss[..i - 1] + [ss[i - 1]];
    }
  }

  /** The default specifier with the comma behind it. */
  lemma RemoveDefault(d: ImportDeclaration)
    requires d.default.Some? && d.Variables() > 1
    ensures Remove(Print(d), Range(d, Default)) == Print(Drop(d, Default))
  {
    var after := Drop(d, Default);
    assert d.clause != NoClause && |PrintDefault(d)| == 2;
    RemoveMiddle(PrintHead(d), PrintDefault(d), PrintClause(d));
    assert PrintHead(after) == PrintHead(d) && PrintDefault(after) == [] && PrintClause(after) == PrintClause(d);
    assert [] + PrintClause(d) == PrintClause(d);
  }

  /** The namespace specifier with the comma before it. */
  lemma RemoveNamespace(d: ImportDeclaration)
    requires d.clause.Namespace? && d.Variables() > 1
    ensures Remove(Print(d), Range(d, NamespaceName)) == Print(Drop(d, NamespaceName))
  {
    var h, name, tail := PrintHead(d), [Name(d.default.value)], [From, Source(d.source)];
    var b := [Comma, Star, As, Name(d.clause.local)];
    assert PrintDefault(d) + PrintClause(d) == name + (b + tail);
    Regroup(h, name, b, tail);
    RemoveMiddle(h + name, b, tail);
    assert (h + name + b) + tail == (h + name) + (b + tail) && h + (name + tail) == (h + name) + tail;
  }

  /** The only specifier in braces behind a default one: the range goes one token beyond the specifier. */
  lemma RemoveOnly(d: ImportDeclaration)
    requires d.default.Some? && d.clause.Named? && |d.clause.specifiers| == 1
    ensures var rest := Remove(Print(d), Range(d, NamedSpecifier(0)));
            rest == (PrintHead(d) + [Name(d.default.value)])
              + if d.clause.trailingComma then Suffix(d, false) else [From, Source(d.source)]
  {
    var a, b, c := AroundOnly(d);
    RemoveMiddle(a, b, c);
  }

  lemma AroundOnly(d: ImportDeclaration) returns (a: seq<Token>, b: seq<Token>, c: seq<Token>)
    requires d.default.Some? && d.clause.Named? && |d.clause.specifiers| == 1
    ensures Print(d) == a + (b + c)
    ensures Range(d, NamedSpecifier(0)) == (|a|, |a| + |b|)
    ensures a == PrintHead(d) + [Name(d.default.value)]
    ensures c == if d.clause.trailingComma then Suffix(d, false) else [From, Source(d.source)]
  {
    var h, name, p := PrintHead(d), [Name(d.default.value)], PrintSpecifier(d.clause.specifiers[0]);
    var end := Suffix(d, d.clause.trailingComma);
    a, b, c := h + name, [Comma, LBrace] + (p + end[..1]), end[1..];
    assert end == end[..1] + c;
    OnlyTokens(name[0], p, end[..1], c);
    assert PrintDefault(d) == [name[0], Comma] && PrintClause(d) == [LBrace] + (p + end);
    assert h + (name + (b + c)) == (h + name) + (b + c);
    OnlyBounds(d);
  }

  lemma OnlyBounds(d: ImportDeclaration)
    requires d.default.Some? && d.clause.Named? && |d.clause.specifiers| == 1
    ensures var start := |PrintHead(d)| + 1;
            Range(d, NamedSpecifier(0)) == (start, start + 3 + |PrintSpecifier(d.clause.specifiers[0])|)
  {
    assert Offset(d.clause.specifiers, 0) == 0;
  }

  lemma OnlyTokens(name: Token, p: seq<Token>, e: seq<Token>, c: seq<Token>)
    ensures [name, Comma] + ([LBrace] + (p + (e + c))) == [name] + (([Comma, LBrace] + (p + e)) + c)
  {
  }

  lemma StrayBrace(d: ImportDeclaration)
    requires d.default.Some?
    ensures Parse(PrintHead(d) + [Name(d.default.value)] + Suffix(d, false)).None?
  {
    var body := [Name(d.default.value)] + Suffix(d, false);
    assert PrintHead(d) + [Name(d.default.value)] + Suffix(d, false) == PrintHead(d) + body;
    assert (PrintHead(d) + body)[|PrintHead(d)|..] == body;
    assert body[1..] == Suffix(d, false);
  }

  /** On the tokens alone, only a trailing comma behind the only specifier does harm. */
  lemma RemovedTokens(d: ImportDeclaration, t: Target)
    requires d.Valid() && IsTarget(d, t) && d.Variables() > 1
    ensures Parse(Remove(Print(d), Range(d, t))) == Some(Drop(d, t)) <==>
      !(t.NamedSpecifier? && |d.clause.specifiers| == 1 && d.clause.trailingComma)
  {
    ParsePrinted(Drop(d, t));
    if t == Default {
      RemoveDefault(d);
    } else if t == NamespaceName {
      RemoveNamespace(d);
    } else if |d.clause.specifiers| == 1 {
      RemoveOnly(d);
      StrayBrace(d);
      var h, name, tail := PrintHead(d), [Name(d.default.value)], [From, Source(d.source)];
      assert h + (name + tail) == (h + name) + tail;
    } else if t.index == 0 {
      RemoveFirst(d);
    } else {
      RemoveLater(d, t.index);
    }
  }

  /** A token as it stands in the text; `glued` if it begins where the previous one ends. */
  datatype Piece = Piece(token: Token, glued: bool)

  function Tokens(ps: seq<Piece>): (ts: seq<Token>)
    ensures |ts| == |ps| && forall i :: 0 <= i < |ps| ==> ts[i] == ps[i].token
  {
    seq(|ps|, i requires 0 <= i < |ps| => ps[i].token)
  }

  predicate IsWord(t: Token) {
    t.Import? || t.Type? || t.From? || t.As? || t.Name?
  }

  function Spelling(t: Token): string {
    match t
    case Import => "import"
    case Type => "type"
    case From => "from"
    case As => "as"
    case Name(name) => name
    case _ => ""
  }

  function Word(spelling: string): Token {
    if spelling == "import" then Import
    else if spelling == "type" then Type
    else if spelling == "from" then From
    else if spelling == "as" then As
    else Name(spelling)
  }

  /** No two words touch, as in every text that was read as these tokens. */
  predicate Separated(ps: seq<Piece>) {
    forall i :: 0 < i < |ps| && ps[i].glued ==> !(IsWord(ps[i - 1].token) && IsWord(ps[i].token))
  }

  /** Reading a text again: words that touch are one word. */
  function Lex(ps: seq<Piece>): seq<Token>
    decreases |ps|
  {
    if |ps| <= 1 then Tokens(ps)
    else if ps[1].glued && IsWord(ps[0].token) && IsWord(ps[1].token) then
      Lex([Piece(Word(Spelling(ps[0].token) + Spelling(ps[1].token)), ps[0].glued)] + ps[2..])
    else [ps[0].token] + Lex(ps[1..])
  }

  /** `fixer.removeRange`: what is left of the gaps at both ends of the range stays. */
  function Delete(ps: seq<Piece>, cuts: (Cut, Cut)): seq<Piece> {
    var lo, hi := Behind(cuts.0), Behind(cuts.1);
    if lo <= hi < |ps| then ps[..lo] + [ps[hi].(glued := Touch(ps, cuts))] + ps[hi + 1..] else ps
  }

  /** Nothing is left between the tokens on both sides of the range. */
  predicate Touch(ps: seq<Piece>, cuts: (Cut, Cut))
    requires Behind(cuts.0) <= Behind(cuts.1) < |ps|
  {
    && (cuts.0.StartOf? ==> ps[Behind(cuts.0)].glued)
    && (cuts.1.EndOf? ==> ps[Behind(cuts.1)].glued)
  }

  lemma {:induction false} LexSeparated(ps: seq<Piece>)
    requires Separated(ps)
    ensures Lex(ps) == Tokens(ps)
    decreases |ps|
  {
    if |ps| > 1 {
      SeparatedTail(ps);
      LexSeparated(ps[1..]);
    }
  }

  lemma DeletedTokens(ps: seq<Piece>, cuts: (Cut, Cut))
    requires Behind(cuts.0) <= Behind(cuts.1) < |ps|
    ensures Tokens(Delete(ps, cuts)) == Remove(Tokens(ps), (Behind(cuts.0), Behind(cuts.1)))
  {
    var lo, hi := Behind(cuts.0), Behind(cuts.1);
    var left, ts := Delete(ps, cuts), Tokens(ps);
    var rest := Remove(ts, (lo, hi));
    assert rest == ts[..lo] + ts[hi..];
    forall i | 0 <= i < |left| ensures Tokens(left)[i] == rest[i] {
      if i > lo {
        assert left[i] == ps[i - lo + hi];
      }
    }
    assert |Tokens(left)| == |rest|;
  }

  lemma DeletedSeparated(ps: seq<Piece>, cuts: (Cut, Cut))
    requires Separated(ps) && 0 < Behind(cuts.0) <= Behind(cuts.1) < |ps|
    requires Touch(ps, cuts) ==> !(IsWord(ps[Behind(cuts.0) - 1].token) && IsWord(ps[Behind(cuts.1)].token))
    ensures Separated(Delete(ps, cuts))
  {
    var lo, hi := Behind(cuts.0), Behind(cuts.1);
    var left := Delete(ps, cuts);
    forall i | 0 < i < |left| && left[i].glued ensures !(IsWord(left[i - 1].token) && IsWord(left[i].token)) {
      if i > lo {
        assert left[i] == ps[i - lo + hi] && left[i - 1].token == ps[i - 1 - lo + hi].token;
      }
    }
  }

  lemma Neighbours(a: seq<Token>, b: seq<Token>, c: seq<Token>)
    requires a != [] && b != [] && c != []
    ensures var ts := a + (b + c);
            && ts[|a| - 1] == a[|a| - 1]
            && ts[|a| + |b| - 1] == b[|b| - 1] && ts[|a| + |b|] == c[0]
  {
  }

  /** At the ends of a range: a sign on one side, or two words that the range's last word kept apart. */
  predicate Apart(ts: seq<Token>, cuts: (Cut, Cut)) {
    var lo, hi := Behind(cuts.0), Behind(cuts.1);
    && 0 < lo < hi < |ts|
    && (!IsWord(ts[hi]) || !IsWord(ts[lo - 1]) || (cuts.1.EndOf? && IsWord(ts[hi - 1])))
  }

  lemma CutApart(ts: seq<Token>, cuts: (Cut, Cut), a: seq<Token>, b: seq<Token>, c: seq<Token>)
    requires ts == a + (b + c) && a != [] && b != [] && c != []
    requires Behind(cuts.0) == |a| && Behind(cuts.1) == |a| + |b|
    requires !IsWord(c[0]) || !IsWord(a[|a| - 1]) || (cuts.1.EndOf? && IsWord(b[|b| - 1]))
    ensures Apart(ts, cuts)
  {
    Neighbours(a, b, c);
  }

  lemma DefaultApart(d: ImportDeclaration)
    requires d.default.Some? && d.Variables() > 1
    ensures Apart(Print(d), Cuts(d, Default))
  {
    assert d.clause != NoClause;
    CutApart(Print(d), Cuts(d, Default), PrintHead(d), PrintDefault(d), PrintClause(d));
  }

  lemma NamespaceApart(d: ImportDeclaration)
    requires d.clause.Namespace? && d.Variables() > 1
    ensures Apart(Print(d), Cuts(d, NamespaceName))
  {
    var h, name, tail := PrintHead(d), [Name(d.default.value)], [From, Source(d.source)];
    var b := [Comma, Star, As, Name(d.clause.local)];
    assert PrintDefault(d) + PrintClause(d) == name + (b + tail);
    assert h + (name + (b + tail)) == (h + name) + (b + tail);
    CutApart(Print(d), Cuts(d, NamespaceName), h + name, b, tail);
  }

  lemma FirstApart(d: ImportDeclaration)
    requires d.clause.Named? && |d.clause.specifiers| > 1
    ensures Apart(Print(d), Cuts(d, NamedSpecifier(0)))
  {
    var ss := d.clause.specifiers;
    PrintFirst(d);
    FirstRange(d);
    CutApart(Print(d), Cuts(d, NamedSpecifier(0)), Prefix(d), PrintSpecifier(ss[0]) + [Comma],
             PrintSpecifiers(ss[1..]) + Suffix(d, d.clause.trailingComma));
  }

  lemma LaterApart(d: ImportDeclaration, i: nat)
    requires d.clause.Named? && 0 < i < |d.clause.specifiers|
    ensures Apart(Print(d), Cuts(d, NamedSpecifier(i)))
  {
    var a, b, c := AroundLater(d, i);
    CutApart(Print(d), Cuts(d, NamedSpecifier(i)), a, b, c);
  }

  /** Four of the five ranges never make words touch. */
  lemma RangeApart(d: ImportDeclaration, t: Target)
    requires IsTarget(d, t) && d.Variables() > 1 && !(t.NamedSpecifier? && |d.clause.specifiers| == 1)
    ensures Apart(Print(d), Cuts(d, t))
  {
    match t
    case Default => DefaultApart(d);
    case NamespaceName => NamespaceApart(d);
    case NamedSpecifier(i) =>
      if i == 0 {
        FirstApart(d);
      } else {
        LaterApart(d, i);
      }
  }

  /** Unless words come to touch, what is left is read as the tokens that are left. */
  lemma DeletedLex(ps: seq<Piece>, cuts: (Cut, Cut))
    requires Separated(ps) && 0 < Behind(cuts.0) <= Behind(cuts.1) < |ps|
    requires Touch(ps, cuts) ==> !(IsWord(ps[Behind(cuts.0) - 1].token) && IsWord(ps[Behind(cuts.1)].token))
    ensures Lex(Delete(ps, cuts)) == Remove(Tokens(ps), (Behind(cuts.0), Behind(cuts.1)))
  {
    DeletedSeparated(ps, cuts);
    LexSeparated(Delete(ps, cuts));
    DeletedTokens(ps, cuts);
  }

  lemma ApartLex(ps: seq<Piece>, cuts: (Cut, Cut))
    requires Separated(ps) && Apart(Tokens(ps), cuts)
    ensures Lex(Delete(ps, cuts)) == Remove(Tokens(ps), (Behind(cuts.0), Behind(cuts.1)))
  {
    DeletedLex(ps, cuts);
  }

  lemma {:induction false} LexBeforeGlued(ps: seq<Piece>, end: seq<Piece>)
    requires Separated(ps) && end != [] && !end[0].glued
    ensures Lex(ps + end) == Tokens(ps) + Lex(end)
    decreases |ps|
  {
    if ps == [] {
      assert ps + end == end;
    } else {
      LexFirst(ps, end);
      SeparatedTail(ps);
      LexBeforeGlued(ps[1..], end);
      Regroup4([ps[0].token], Tokens(ps[1..]), Lex(end), Tokens(ps), Lex(ps[1..] + end));
    }
  }

  lemma Regroup4(a: seq<Token>, b: seq<Token>, c: seq<Token>, ab: seq<Token>, bc: seq<Token>)
    requires ab == a + b && bc == b + c
    ensures a + bc == ab + c
  {
  }

  lemma SeparatedTail(ps: seq<Piece>)
    requires Separated(ps) && ps != []
    ensures Separated(ps[1..]) && Tokens(ps) == [ps[0].token] + Tokens(ps[1..])
  {
    assert forall i :: 0 < i < |ps[1..]| ==> ps[1..][i] == ps[i + 1] && ps[1..][i - 1] == ps[i];
  }

  lemma LexFirst(ps: seq<Piece>, end: seq<Piece>)
    requires Separated(ps) && ps != [] && end != [] && !end[0].glued
    ensures Lex(ps + end) == [ps[0].token] + Lex(ps[1..] + end)
  {
    var all := ps + end;
    assert all[1] == if |ps| > 1 then ps[1] else end[0];
    assert all[1..] == ps[1..] + end;
  }

  /** A name and `from` that touch make one word. */
  lemma LexGlued(name: Piece, last: Piece)
    requires name.token.Name? && last.token.Source?
    ensures Lex([name, Piece(From, true), last]) == [Word(name.token.name + "from"), last.token]
  {
    var ps := [name, Piece(From, true), last];
    var word := Piece(Word(name.token.name + "from"), name.glued);
    assert ps[2..] == [last] && [word] + [last] == [word, last] && [word, last][1..] == [last];
    assert Lex(ps) == Lex([word, last]);
    assert Lex([word, last]) == [word.token] + Lex([last]);
  }

  lemma NoGluedImport(d: ImportDeclaration, name: string)
    ensures Parse(PrintHead(d) + [Word(name + "from"), Source(d.source)]).None?
  {
    var w := Word(name + "from");
    var body := [w, Source(d.source)];
    assert (name + "from")[|name| + 3] == 'm';
    assert w != Import && w != Type && w != As;
    assert body[1..] == [Source(d.source)];
    assert (PrintHead(d) + body)[|PrintHead(d)|..] == body && (PrintHead(d) + body)[|PrintHead(d)|] == w;
  }

  /** The only specifier in braces behind a default one, as the pieces stand. */
  lemma OnlyPieces(d: ImportDeclaration, ps: seq<Piece>)
    requires d.default.Some? && d.clause.Named? && |d.clause.specifiers| == 1 && !d.clause.trailingComma
    requires Separated(ps) && Tokens(ps) == Print(d)
    ensures |ps| >= 2 && Behind(Cuts(d, NamedSpecifier(0)).0) == |PrintHead(d)| + 1
    ensures Behind(Cuts(d, NamedSpecifier(0)).1) == |ps| - 2 > |PrintHead(d)| + 1
    ensures ps[|ps| - 2].token == From && ps[|ps| - 1].token == Source(d.source)
    ensures Tokens(ps[..|PrintHead(d)|]) == PrintHead(d)
    ensures ps[|PrintHead(d)|] == Piece(Name(d.default.value), false)
  {
    var a, b, c := AroundOnly(d);
    var n := |PrintHead(d)|;
    OnlyBounds(d);
    assert |Print(d)| == |a| + |b| + |c| && c == [From, Source(d.source)];
    assert Print(d)[|a| + |b|..] == c;
    assert Print(d)[..n] == PrintHead(d);
    assert Print(d)[n] == a[n];
    assert Print(d)[n - 1] == PrintHead(d)[n - 1];
    assert Tokens(ps[..n]) == Print(d)[..n];
  }

  lemma GluedPieces(d: ImportDeclaration, ps: seq<Piece>)
    requires d.default.Some? && d.clause.Named? && |d.clause.specifiers| == 1 && !d.clause.trailingComma
    requires Separated(ps) && Tokens(ps) == Print(d) && |ps| >= 2 && ps[|ps| - 2].glued
    ensures var n := |PrintHead(d)|;
            && n < |ps| && Tokens(ps[..n]) == PrintHead(d)
            && ps[n] == Piece(Name(d.default.value), false) && ps[|ps| - 1].token == Source(d.source)
            && Delete(ps, Cuts(d, NamedSpecifier(0))) == ps[..n] + [ps[n], Piece(From, true), ps[|ps| - 1]]
  {
    OnlyPieces(d, ps);
    var n, last := |PrintHead(d)|, ps[|ps| - 1];
    assert ps[|ps| - 1..] == [last] && ps[..n + 1] == ps[..n] + [ps[n]];
    assert ps[..n] + [ps[n]] + [Piece(From, true)] + [last] == ps[..n] + [ps[n], Piece(From, true), last];
  }

  /** Without a gap behind the closing brace, the default name and `from` touch. */
  lemma GluedLex(d: ImportDeclaration, ps: seq<Piece>)
    requires d.default.Some? && d.clause.Named? && |d.clause.specifiers| == 1 && !d.clause.trailingComma
    requires Separated(ps) && Tokens(ps) == Print(d) && |ps| >= 2 && ps[|ps| - 2].glued
    ensures Lex(Delete(ps, Cuts(d, NamedSpecifier(0)))) ==
      PrintHead(d) + [Word(d.default.value + "from"), Source(d.source)]
  {
    GluedPieces(d, ps);
    var n := |PrintHead(d)|;
    var last := ps[|ps| - 1];
    LexBeforeGlued(ps[..n], [ps[n], Piece(From, true), last]);
    LexGlued(ps[n], last);
  }

  lemma GluedIsNoImport(d: ImportDeclaration, ps: seq<Piece>)
    requires d.default.Some? && d.clause.Named? && |d.clause.specifiers| == 1 && !d.clause.trailingComma
    requires Separated(ps) && Tokens(ps) == Print(d) && |ps| >= 2 && ps[|ps| - 2].glued
    ensures Parse(Lex(Delete(ps, Cuts(d, NamedSpecifier(0))))).None?
  {
    GluedLex(d, ps);
    NoGluedImport(d, d.default.value);
  }

  lemma PrintIsLong(d: ImportDeclaration)
    ensures |Print(d)| >= 2
  {
    assert |PrintClause(d)| >= 2;
  }

  lemma TrailingApart(d: ImportDeclaration)
    requires d.default.Some? && d.clause.Named? && |d.clause.specifiers| == 1 && d.clause.trailingComma
    ensures Apart(Print(d), Cuts(d, NamedSpecifier(0)))
  {
    var a, b, c := AroundOnly(d);
    CutApart(Print(d), Cuts(d, NamedSpecifier(0)), a, b, c);
  }

  /** Where the suggestion leaves just the tokens outside its range. */
  lemma LeftLex(d: ImportDeclaration, t: Target, ps: seq<Piece>)
    requires IsTarget(d, t) && d.Variables() > 1 && Separated(ps) && Tokens(ps) == Print(d) && |ps| >= 2
    requires t.NamedSpecifier? && |d.clause.specifiers| == 1 && !d.clause.trailingComma ==> !ps[|ps| - 2].glued
    ensures Lex(Delete(ps, Cuts(d, t))) == Remove(Print(d), Range(d, t))
  {
    if !(t.NamedSpecifier? && |d.clause.specifiers| == 1) {
      RangeApart(d, t);
      ApartLex(ps, Cuts(d, t));
    } else {
      OnlyLex(d, ps);
    }
  }

  lemma OnlyLex(d: ImportDeclaration, ps: seq<Piece>)
    requires d.default.Some? && d.clause.Named? && |d.clause.specifiers| == 1
    requires Separated(ps) && Tokens(ps) == Print(d) && |ps| >= 2
    requires d.clause.trailingComma || !ps[|ps| - 2].glued
    ensures Lex(Delete(ps, Cuts(d, NamedSpecifier(0)))) == Remove(Print(d), Range(d, NamedSpecifier(0)))
  {
    if d.clause.trailingComma {
      TrailingApart(d);
      ApartLex(ps, Cuts(d, NamedSpecifier(0)));
    } else {
      OnlyPieces(d, ps);
      DeletedLex(ps, Cuts(d, NamedSpecifier(0)));
    }
  }

  /** The suggestion leaves the same import without that one name, except when that name is the only one in braces
      behind a default import and a comma follows it, or no gap follows the closing brace. */
  lemma SuggestionRightIff(d: ImportDeclaration, t: Target, ps: seq<Piece>)
    requires d.Valid() && IsTarget(d, t) && d.Variables() > 1
    requires Separated(ps) && Tokens(ps) == Print(d)
    ensures |ps| >= 2
    ensures Parse(Lex(Delete(ps, Cuts(d, t)))) == Some(Drop(d, t)) <==>
      !(t.NamedSpecifier? && |d.clause.specifiers| == 1 && (d.clause.trailingComma || ps[|ps| - 2].glued))
  {
    RemovedTokens(d, t);
    PrintIsLong(d);
    if t.NamedSpecifier? && |d.clause.specifiers| == 1 && !d.clause.trailingComma && ps[|ps| - 2].glued {
      GluedIsNoImport(d, ps);
    } else {
      LeftLex(d, t, ps);
    }
  }

  /** `import a,{b}from 'x'` */
  const COMPACT_IMPORT := ImportDeclaration(false, Some("a"), Named([Specifier(false, "b", None)], false), "x")
  const COMPACT_PIECES :=
    [Piece(Import, false), Piece(Name("a"), false), Piece(Comma, true), Piece(LBrace, true),
     Piece(Name("b"), true), Piece(RBrace, true), Piece(From, true), Piece(Source("x"), false)]

  lemma CompactPieces()
    ensures Separated(COMPACT_PIECES) && Tokens(COMPACT_PIECES) == Print(COMPACT_IMPORT)
  {
    assert PrintSpecifiers(COMPACT_IMPORT.clause.specifiers) == [Name("b")];
    assert Print(COMPACT_IMPORT) == [Import, Name("a"), Comma, LBrace, Name("b"), RBrace, From, Source("x")];
  }

  /** Dropping `b` leaves `import afrom 'x'`. */
  lemma NoGapBehindBrace()
    ensures Lex(Delete(COMPACT_PIECES, Cuts(COMPACT_IMPORT, NamedSpecifier(0)))) == [Import, Name("afrom"), Source("x")]
  {
    CompactPieces();
    GluedLex(COMPACT_IMPORT, COMPACT_PIECES);
    assert "a" + "from" == "afrom" && [Import] + [Name("afrom"), Source("x")] == [Import, Name("afrom"), Source("x")];
  }
}
