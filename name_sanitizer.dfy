/**
  The name sanitizer of the dialect code generator: it turns a label taken
  from an operation definition into the text of a Rust identifier that does
  not collide with the methods the generator emits itself.

  The identifier is modelled by its text (what `Ident::to_string` gives).
  Parsing with `syn` and building a raw identifier with `format_ident!` are
  modelled on ASCII identifiers.
*/
module NameSanitizer {
  import opened Wrappers

  /** Why sanitizing panics: the `expect` on the first character, or a text
      that `format_ident!("r#{}", ..)` cannot turn into a raw identifier. */
  datatype NameError = EmptyName | NotRawIdentifier

  /** Names of methods the generated builders already define. */
  const ReservedNames: set<string> := {"name", "operation", "builder"}

  /** The words `syn` refuses to parse as an `Ident`: Rust's keywords, the
      reserved keywords and the lone underscore. */
  predicate IsKeyword(s: string) {
    // grouped by length, so that a word is only compared with keywords as long as it
    match |s|
    case 1 => s == "_"
    case 2 => s in {"as", "do", "fn", "if", "in"}
    case 3 => s in {"box", "dyn", "for", "let", "mod", "mut", "pub", "ref", "try", "use"}
    case 4 => s in {"else", "enum", "impl", "loop", "move", "priv", "Self", "self", "true", "type"}
    case 5 => s in {"async", "await", "break", "const", "crate", "false", "final", "macro",
                    "match", "super", "trait", "where", "while", "yield"}
    case 6 => s in {"become", "extern", "return", "static", "struct", "typeof", "unsafe"}
    case 7 => s in {"unsized", "virtual"}
    case 8 => s in {"abstract", "continue", "override"}
    case _ => false
  }

  /** The words that cannot be written as a raw identifier `r#..`. */
  predicate IsNonRawWord(s: string) {
    match s
    case "_" | "crate" | "self" | "Self" | "super" => true
    case _ => false
  }

  predicate IsReserved(s: string) {
    s in ReservedNames
  }

  /** `char::is_numeric`, restricted to ASCII. */
  predicate IsNumeric(c: char) {
    '0' <= c <= '9'
  }

  predicate IsIdentStart(c: char) {
    'a' <= c <= 'z' || 'A' <= c <= 'Z' || c == '_'
  }

  predicate IsIdentContinue(c: char) {
    IsIdentStart(c) || IsNumeric(c)
  }

  /** The lexical shape of an identifier token. */
  predicate IdentShaped(s: string) {
    |s| > 0 && IsIdentStart(s[0]) && IdentCharsFrom(s, 1)
  }

  /** Every character of `s` from index `i` on may continue an identifier. */
  predicate IdentCharsFrom(s: string, i: nat)
    decreases |s| - i
  {
    i >= |s| || (IsIdentContinue(s[i]) && IdentCharsFrom(s, i + 1))
  }

  /** `syn::parse_str::<Ident>(s).is_ok()`. */
  predicate ParsesAsIdent(s: string) {
    IdentShaped(s) && !IsKeyword(s)
  }

  /** Whether `format_ident!("r#{}", s)` returns instead of panicking. */
  predicate IsRawable(s: string) {
    IdentShaped(s) && !IsNonRawWord(s)
  }

  /** `format_ident!("r#{}", s)`: the raw identifier, or None where it panics. */
  function RawIdent(s: string): (r: Option<string>)
    ensures r.Some? <==> IsRawable(s)
    ensures r.Some? ==> r.value == "r#" + s
  {
    if IsRawable(s) then Some("r#" + s) else None
  }

  /** `name.replace('.', "_")`. */
  function ReplaceDots(s: string): (r: string)
    ensures |r| == |s|
    ensures forall i :: 0 <= i < |s| ==> r[i] == (if s[i] == '.' then '_' else s[i])
  {
    if s == [] then [] else [if s[0] == '.' then '_' else s[0]] + ReplaceDots(s[1..])
  }

  /** A text that needs no underscore in front: non-empty, not reserved,
      and not starting with a digit. */
  predicate Unreserved(t: string) {
    |t| > 0 && !IsReserved(t) && !IsNumeric(t[0])
  }

  /** The reserved-name guard, with the short-circuit order of the source:
      the reserved check first, then the first character. */
  function AvoidReserved(d: string): (r: Result<string, NameError>)
    ensures r.Failure? <==> d == []
    ensures r.Failure? ==> r.error == EmptyName
    ensures r.Success? ==> Unreserved(r.value)
    ensures r.Success? ==> (r.value == d <==> Unreserved(d))
    ensures r.Success? && r.value != d ==> r.value == "_" + d
    ensures r.Success? ==> ('.' in r.value <==> '.' in d)
  {
    PrefixedUnreserved("_", d);
    if IsReserved(d) then Success("_" + d)
    else if |d| == 0 then Failure(EmptyName)
    else if IsNumeric(d[0]) then Success("_" + d)
    else Success(d)
  }

  /** The text that `sanitize_name` builds before the raw-identifier step. */
  function Prepared(name: string): (t: string)
    requires name != []
    ensures Unreserved(t) && '.' !in t
    ensures t == ReplaceDots(name) || t == "_" + ReplaceDots(name)
  {
    ReplaceDotsRemovesDots(name);
    AvoidReserved(ReplaceDots(name)).value
  }

  /** `sanitize_name`. */
  function SanitizeName(name: string): (r: Result<string, NameError>)
    ensures r == Failure(EmptyName) <==> name == []
    ensures name != [] ==> (r.Success? <==> IsRawable(Prepared(name)))
    ensures name != [] && r.Failure? ==> r.error == NotRawIdentifier
    ensures r.Success? && ParsesAsIdent(Prepared(name)) ==> r.value == Prepared(name)
    ensures r.Success? && !ParsesAsIdent(Prepared(name)) ==> r.value == "r#" + Prepared(name)
    ensures r.Success? ==> Unreserved(r.value) && '.' !in r.value
  {
    ReplaceDotsRemovesDots(name);
    match AvoidReserved(ReplaceDots(name))
    case Failure(e) => Failure(e)
    case Success(t) =>
      PrefixedUnreserved("r#", t);
      // `unwrap_or` takes its argument by value, so the raw identifier is
      // built (and may panic) whether or not the text parses.
      var raw := RawIdent(t);
      if raw.None? then Failure(NotRawIdentifier)
      else if ParsesAsIdent(t) then Success(t)
      else Success(raw.value)
  }

  /** `sanitize_snake_case_name`; `toSnake` stands for `to_case(Case::Snake)`. */
  function SanitizeSnakeCaseName(name: string, toSnake: string -> string): (r: Result<string, NameError>)
    ensures r == Failure(EmptyName) <==> toSnake(name) == []
    ensures r.Success? ==> Unreserved(r.value) && '.' !in r.value
    ensures r.Success? ==> r.value == Prepared(toSnake(name)) || r.value == "r#" + Prepared(toSnake(name))
  {
    SanitizeName(toSnake(name))
  }

  lemma {:induction false} ReplaceDotsRemovesDots(s: string)
    ensures '.' !in ReplaceDots(s)
  {
    var r := ReplaceDots(s);
    forall i | 0 <= i < |r| ensures r[i] != '.' { }
  }

  lemma {:induction false} ReplaceDotsFixesDotFree(s: string)
    requires '.' !in s
    ensures ReplaceDots(s) == s
  {
    var r := ReplaceDots(s);
    forall i | 0 <= i < |s| ensures r[i] == s[i] {
      assert s[i] != '.';
    }
  }

  /** Replacing dots works character by character, so it distributes over
      concatenation. */
  lemma ReplaceDotsConcat(a: string, b: string)
    ensures ReplaceDots(a + b) == ReplaceDots(a) + ReplaceDots(b)
  {
    var l, r := ReplaceDots(a + b), ReplaceDots(a) + ReplaceDots(b);
    forall i | 0 <= i < |a + b| ensures l[i] == r[i] {
      if i < |a| {
        assert (a + b)[i] == a[i];
      } else {
        assert (a + b)[i] == b[i - |a|];
      }
    }
  }

  /** The guarded text is a fixed point of the replace-and-guard step. */
  lemma PreparedIsFixpoint(name: string)
    requires name != []
    ensures AvoidReserved(ReplaceDots(Prepared(name))) == Success(Prepared(name))
  {
    ReplaceDotsFixesDotFree(Prepared(name));
  }

  /** Sanitizing a non-raw result again gives the same identifier. */
  lemma SanitizeNameIdempotent(name: string)
    requires SanitizeName(name).Success?
    requires ParsesAsIdent(Prepared(name))
    ensures SanitizeName(SanitizeName(name).value) == SanitizeName(name)
  {
    var t := Prepared(name);
    PreparedIsFixpoint(name);
    assert ReplaceDots(t) == t;
    assert Prepared(t) == t;
  }

  /** Sanitizing a raw result `r#..` again panics: `#` is no identifier character. */
  lemma SanitizeRawResultPanics(name: string)
    requires SanitizeName(name).Success?
    requires !ParsesAsIdent(Prepared(name))
    ensures SanitizeName(SanitizeName(name).value) == Failure(NotRawIdentifier)
  {
    RawTextNotRawable(Prepared(name));
  }

  lemma RawTextNotRawable(t: string)
    requires '.' !in t
    ensures Prepared("r#" + t) == "r#" + t
    ensures !IsRawable("r#" + t)
  {
    var v := "r#" + t;
    PrefixedUnreserved("r#", t);
    ReplaceDotsFixesDotFree(v);
    assert v[1] == '#';
  }

  /** Only the dot-replaced name matters. */
  lemma SanitizeSeesDotsAsUnderscores(a: string, b: string)
    requires ReplaceDots(a) == ReplaceDots(b)
    ensures SanitizeName(a) == SanitizeName(b)
  {
  }

  /** A name that is already a clean identifier is returned as it is. */
  lemma SanitizePlainIdentifier(t: string)
    requires '.' !in t && Unreserved(t) && ParsesAsIdent(t)
    ensures SanitizeName(t) == Success(t)
  {
    ReplaceDotsFixesDotFree(t);
  }

  /** A name whose prepared text parses is sanitized to that text. */
  lemma SanitizeParsedPrepared(name: string)
    requires name != [] && ParsesAsIdent(Prepared(name))
    ensures SanitizeName(name) == Success(Prepared(name))
  {
    ParsesImpliesRawable(Prepared(name));
  }

  /** Every text `ParsesAsIdent` accepts can also be written raw, so in this
      model the eager raw-identifier step only panics on texts that do not parse. */
  lemma ParsesImpliesRawable(s: string)
    ensures ParsesAsIdent(s) ==> IsRawable(s)
  {
  }

  /** A text that starts with a character that begins no reserved name and
      is not a digit needs no further guard. */
  lemma PrefixedUnreserved(p: string, t: string)
    requires |p| > 0 && !IsNumeric(p[0]) && p[0] != 'n' && p[0] != 'o' && p[0] != 'b'
    ensures Unreserved(p + t)
  {
    var v := p + t;
    assert v[0] == p[0];
    forall w <- ReservedNames ensures v != w {
      assert w[0] == 'n' || w[0] == 'o' || w[0] == 'b';
    }
  }

  /** The result never spells a reserved name, with or without the raw prefix,
      and never starts with a digit. */
  lemma SanitizedNeverReserved(name: string, reserved: string)
    requires reserved in ReservedNames
    requires SanitizeName(name).Success?
    ensures SanitizeName(name).value != reserved
    ensures !IsNumeric(SanitizeName(name).value[0])
    ensures var v := SanitizeName(name).value;
            |v| >= 2 && v[..2] == "r#" ==> v[2..] != reserved
  {
    var v := SanitizeName(name).value;
    if |v| >= 2 && v[..2] == "r#" {
      // a plain result is identifier-shaped, so this one is raw
      assert v[1] == v[..2][1];
      HashNotIdentShaped(v);
      assert v[2..] == Prepared(name);
    }
  }

  /** `#` continues no identifier. */
  lemma HashNotIdentShaped(v: string)
    requires |v| >= 2 && v[1] == '#'
    ensures !IdentShaped(v)
  {
  }

  lemma SanitizeEmptyNamePanics()
    ensures SanitizeName("") == Failure(EmptyName)
  {
  }

  /** A dot-free text that needs no guard is its own prepared text. */
  lemma PreparedClean(t: string)
    requires '.' !in t && Unreserved(t)
    ensures Prepared(t) == t
  {
    ReplaceDotsFixesDotFree(t);
  }

  /** A dot-free text that starts with a digit gets one underscore in front. */
  lemma PreparedLeadingDigit(t: string)
    requires '.' !in t && |t| > 0 && IsNumeric(t[0])
    ensures Prepared(t) == "_" + t
  {
    ReplaceDotsFixesDotFree(t);
  }

  /** `a.b` is prepared to `a_b` when neither part has a dot and `a_b` needs no guard. */
  lemma PreparedDotted(a: string, b: string)
    requires '.' !in a && '.' !in b && Unreserved(a + "_" + b)
    ensures Prepared(a + "." + b) == a + "_" + b
  {
    ReplaceDotted(a, b);
  }

  /** `a.b` becomes `a_b` when neither part has a dot. */
  lemma ReplaceDotted(a: string, b: string)
    requires '.' !in a && '.' !in b
    ensures ReplaceDots(a + "." + b) == a + "_" + b
  {
    ReplaceDotsConcat(a + ".", b);
    ReplaceDotsConcat(a, ".");
    ReplaceDotsFixesDotFree(a);
    ReplaceDotsFixesDotFree(b);
  }

  lemma SanitizeDottedName()
    ensures SanitizeName("foo.bar") == Success("foo_bar")
  {
    PreparedFooBar();
    assert ParsesAsIdent("foo_bar");
    SanitizeParsedPrepared("foo.bar");
  }

  lemma PreparedFooBar()
    ensures Prepared("foo.bar") == "foo_bar"
  {
    assert "foo" + "_" + "bar" == "foo_bar";
    assert "foo" + "." + "bar" == "foo.bar";
    PreparedDotted("foo", "bar");
  }

  lemma SanitizeDottedUnderscoredName()
    ensures SanitizeName("foo.bar_baz") == Success("foo_bar_baz")
  {
    PreparedFooBarBaz();
    FooBarBazParses();
    SanitizeParsedPrepared("foo.bar_baz");
  }

  lemma FooBarBazParses()
    ensures ParsesAsIdent("foo_bar_baz")
  {
  }

  lemma PreparedFooBarBaz()
    ensures Prepared("foo.bar_baz") == "foo_bar_baz"
  {
    assert "foo" + "_" + "bar_baz" == "foo_bar_baz";
    assert "foo" + "." + "bar_baz" == "foo.bar_baz";
    PreparedDotted("foo", "bar_baz");
  }

  lemma SanitizeReservedName()
    ensures SanitizeName("builder") == Success("_builder")
  {
    PreparedBuilder();
    UnderscoredBuilderParses();
    SanitizeParsedPrepared("builder");
  }

  lemma UnderscoredBuilderParses()
    ensures ParsesAsIdent("_builder")
  {
  }

  lemma PreparedBuilder()
    ensures Prepared("builder") == "_builder"
  {
    ReplaceDotsFixesDotFree("builder");
    assert "_" + "builder" == "_builder";
  }

  lemma SanitizeLeadingDigit()
    ensures SanitizeName("1st") == Success("_1st")
  {
    assert Prepared("1st") == "_1st" by {
      PreparedLeadingDigit("1st");
      assert "_" + "1st" == "_1st";
    }
    assert ParsesAsIdent("_1st");
  }

  lemma SanitizeKeyword()
    ensures SanitizeName("type") == Success("r#type")
  {
    PreparedClean("type");
    assert IsKeyword("type") && IsRawable("type");
    assert "r#" + "type" == "r#type";
  }

  lemma SanitizeSelfPanics()
    ensures SanitizeName("self") == Failure(NotRawIdentifier)
  {
    PreparedClean("self");
    assert !IsRawable("self");
  }

  /** The three cases of the source's tests, for any snake-casing that leaves
      already snake-cased input as it is. */
  lemma SnakeCaseNameExamples(toSnake: string -> string)
    requires toSnake("foo.bar") == "foo.bar"
    requires toSnake("foo.bar_baz") == "foo.bar_baz"
    requires toSnake("builder") == "builder"
    ensures SanitizeSnakeCaseName("foo.bar", toSnake) == Success("foo_bar")
    ensures SanitizeSnakeCaseName("foo.bar_baz", toSnake) == Success("foo_bar_baz")
    ensures SanitizeSnakeCaseName("builder", toSnake) == Success("_builder")
  {
    SanitizeDottedName();
    SanitizeDottedUnderscoredName();
    SanitizeReservedName();
  }

}
