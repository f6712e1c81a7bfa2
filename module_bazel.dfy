/**
 * The `MODULE.bazel` mini-parser (bzlreg/module_bazel.cc): a file is read
 * as a sequence of calls `ident(attr = value, ...)`; the first must be
 * `module(...)`, and every later `bazel_dep(...)` with a name and a version
 * adds one dependency.
 */
module ModuleBazel {
  import opened Common

  /** One parsed call: its name, its attributes, and the text after it. */
  datatype Call = Call(name: string, attrs: map<string, string>, after: string)

  /** What `parse_call` returns when the text holds no complete call. */
  const NoCall: Call := Call("", map[], "")

  // ---------------------------------------------------------------------
  // Attributes

  /** `StrSplit(piece, MaxSplits('=', 1))`: the text before and after the
      first `=`, or the whole piece when it has none. */
  function SplitFirstEquals(piece: string): (parts: seq<string>)
    ensures 1 <= |parts| <= 2
    ensures |parts| == 2 <==> '=' in piece
    ensures |parts| == 2 ==> parts[0] + "=" + parts[1] == piece && '=' !in parts[0]
    ensures |parts| == 1 ==> parts[0] == piece
  {
    match Find(piece, '=')
    case Some(i) =>
      assert piece == piece[..i] + "=" + piece[i + 1..];
      [piece[..i], piece[i + 1..]]
    case None => [piece]
  }

  /** One comma-separated piece as an attribute: the stripped name and
      value, present only when both sides of the first `=` are non-blank
      (with `SkipWhitespace`, a blank side leaves a single part). */
  function AttrOf(piece: string): (r: Option<(string, string)>)
    ensures r.Some? ==> r.value.0 != [] && r.value.1 != []
    ensures r.Some? ==> '=' in piece && Trimmed(r.value.0) && Trimmed(r.value.1)
  {
    var parts := SplitFirstEquals(piece);
    if |parts| == 2 && !IsBlank(parts[0]) && !IsBlank(parts[1]) then
      Some((Strip(parts[0]), Strip(parts[1])))
    else
      None
  }

  /** Every value in the map is non-empty. */
  predicate NonEmptyValues(attrs: map<string, string>) {
    forall k :: k in attrs ==> attrs[k] != []
  }

  /** Neither end of `s` is whitespace. */
  predicate Trimmed(s: string) {
    s != [] ==> !IsAsciiSpace(s[0]) && !IsAsciiSpace(s[|s| - 1])
  }

  /** What each piece binds, in order: only a piece holding `=` binds, and
      it binds a non-empty name to a non-empty value, both trimmed. */
  function Bindings(pieces: seq<string>): (bs: seq<Option<(string, string)>>)
    ensures |bs| == |pieces|
    ensures forall i :: 0 <= i < |pieces| ==> bs[i] == AttrOf(pieces[i])
    ensures NonEmptyBindings(bs)
    ensures forall i :: 0 <= i < |pieces| && bs[i].Some? ==>
      '=' in pieces[i] && bs[i].value.0 != [] && Trimmed(bs[i].value.0) && Trimmed(bs[i].value.1)
  {
    seq(|pieces|, i requires 0 <= i < |pieces| => AttrOf(pieces[i]))
  }

  predicate BindsName(b: Option<(string, string)>, k: string) {
    b.Some? && b.value.0 == k
  }

  predicate NonEmptyBindings(bs: seq<Option<(string, string)>>) {
    forall i :: 0 <= i < |bs| && bs[i].Some? ==> bs[i].value.1 != []
  }

  /** The attribute map after the bindings in order, a later binding of a
      name replacing an earlier one. */
  function MapOf(bs: seq<Option<(string, string)>>): (attrs: map<string, string>)
  {
    if bs == [] then map[]
    else
      var m := MapOf(bs[..|bs| - 1]);
      match bs[|bs| - 1]
      case None => m
      case Some((k, v)) => m[k := v]
  }

  lemma {:induction false} MapOfValues(bs: seq<Option<(string, string)>>)
    requires NonEmptyBindings(bs)
    ensures NonEmptyValues(MapOf(bs))
  {
    if bs != [] {
      MapOfValues(bs[..|bs| - 1]);
    }
  }

  /** Appending one binding updates the map with it. */
  lemma MapOfSnoc(bs: seq<Option<(string, string)>>, i: nat)
    requires i < |bs|
    ensures MapOf(bs[..i + 1]) == match bs[i] { case None => MapOf(bs[..i]) case Some((k, v)) => MapOf(bs[..i])[k := v] }
  {
    assert bs[..i + 1][..i] == bs[..i];
  }

  /** A name is in the map iff some binding binds it. */
  lemma {:induction false} MapOfBound(bs: seq<Option<(string, string)>>, k: string)
    ensures k in MapOf(bs) <==> exists i :: 0 <= i < |bs| && BindsName(bs[i], k)
  {
    if bs != [] {
      var n := |bs| - 1;
      MapOfSnoc(bs, n);
      assert bs[..n + 1] == bs;
      MapOfBound(bs[..n], k);
      if exists i :: 0 <= i < |bs| && BindsName(bs[i], k) {
        var i :| 0 <= i < |bs| && BindsName(bs[i], k);
        if i < n {
          assert bs[..n][i] == bs[i];
        }
      }
      if exists i :: 0 <= i < n && BindsName(bs[..n][i], k) {
        var i :| 0 <= i < n && BindsName(bs[..n][i], k);
        assert bs[i] == bs[..n][i];
      }
    }
  }

  /** A name is mapped to the value of the last binding of it. */
  lemma {:induction false} MapOfLast(bs: seq<Option<(string, string)>>, i: nat, k: string, v: string)
    requires i < |bs| && bs[i] == Some((k, v))
    requires forall j :: i < j < |bs| ==> !BindsName(bs[j], k)
    ensures k in MapOf(bs) && MapOf(bs)[k] == v
    decreases |bs|
  {
    var n := |bs| - 1;
    MapOfSnoc(bs, n);
    assert bs[..n + 1] == bs;
    if i < n {
      assert !BindsName(bs[n], k);
      var init := bs[..n];
      assert init[i] == bs[i];
      forall j | i < j < |init| ensures !BindsName(init[j], k) {
        assert init[j] == bs[j];
      }
      MapOfLast(init, i, k, v);
    }
  }

  /** The attribute map of the pieces of one call. */
  function AttrsOf(pieces: seq<string>): (attrs: map<string, string>)
    ensures NonEmptyValues(attrs)
  {
    MapOfValues(Bindings(pieces));
    MapOf(Bindings(pieces))
  }

  /** The comma-separated pieces between the parentheses, blank ones dropped. */
  function AttrPieces(inner: string): seq<string> {
    SkipBlank(Split(inner, [',']))
  }

  // ---------------------------------------------------------------------
  // Calls

  /** `parse_call`: the name before the first `(`, the attributes up to the
      first `)` after it, and the text after that `)`. */
  function CallOf(contents: string): (c: Call)
    ensures |c.after| <= |contents|
    ensures contents != [] ==> |c.after| < |contents|
    ensures NonEmptyValues(c.attrs)
  {
    match Find(contents, '(')
    case None => NoCall
    case Some(open) =>
      match FindFrom(contents, ')', open)
      case None => NoCall
      case Some(close) => CallAt(contents, open, close)
  }

  /** The call whose `(` and `)` are at `open` and `close`. */
  function CallAt(contents: string, open: nat, close: nat): (c: Call)
    requires open < close < |contents|
    ensures |c.after| < |contents|
    ensures NonEmptyValues(c.attrs)
  {
    Call(Strip(contents[..open]), AttrsOf(AttrPieces(contents[open + 1..close])), contents[close + 1..])
  }

  /** `parse_call`, filling the attribute map piece by piece. */
  method ParseCall(contents: string) returns (c: Call)
    ensures c == CallOf(contents)
  {
    var open := Find(contents, '(');
    if open.None? {
      NoCallWithoutParentheses(contents);
      return NoCall;
    }
    var close := FindFrom(contents, ')', open.value);
    if close.None? {
      NoCallWithoutParentheses(contents);
      return NoCall;
    }
    var pieces := AttrPieces(contents[open.value + 1..close.value]);
    var attrs := FillAttrs(pieces);
    CallOfParts(contents, open.value, close.value);
    return Call(Strip(contents[..open.value]), attrs, contents[close.value + 1..]);
  }

  /** The loop of `parse_call` over the pieces: each `key = value` piece
      sets its key, a later piece overriding an earlier one. */
  method FillAttrs(pieces: seq<string>) returns (attrs: map<string, string>)
    ensures attrs == AttrsOf(pieces)
  {
    ghost var bs := Bindings(pieces);
    attrs := map[];
    var i := 0;
    while i < |pieces|
      invariant 0 <= i <= |pieces|
      invariant attrs == MapOf(bs[..i])
    {
      MapOfSnoc(bs, i);
      var attr := AttrOf(pieces[i]);
      if attr.Some? {
        attrs := attrs[attr.value.0 := attr.value.1];
      }
      i := i + 1;
    }
    assert bs[..i] == bs;
  }

  /** Without a `(`, or without a `)` after the first `(`, there is no call:
      an empty name and no remaining text. */
  lemma NoCallWithoutParentheses(contents: string)
    requires Find(contents, '(').None? || FindFrom(contents, ')', Find(contents, '(').value).None?
    ensures CallOf(contents) == NoCall
  {
  }

  // ---------------------------------------------------------------------
  // Attribute values

  /** `attr_as_string`: the value without its first and last character (the
      quotes). Values reaching it are stripped, non-blank and so non-empty;
      one character gives the empty string. */
  function AttrAsString(v: string): (s: string)
    requires |v| >= 1
    ensures |v| >= 2 ==> s == v[1..|v| - 1]
    ensures |v| == 1 ==> s == []
    ensures |v| >= 2 && v[0] == '"' && v[|v| - 1] == '"' ==> Quoted(s) == v
  {
    if |v| == 1 then [] else v[1..|v| - 1]
  }

  const IntMin: int := -0x8000_0000
  const IntMax: int := 0x7fff_ffff

  predicate IsDigit(c: char) {
    '0' <= c <= '9'
  }

  /** Number of leading decimal digits. */
  function DigitPrefixLength(s: string): (k: nat)
    ensures k <= |s|
    ensures forall i :: 0 <= i < k ==> IsDigit(s[i])
    ensures k == |s| || !IsDigit(s[k])
  {
    if s == [] || !IsDigit(s[0]) then 0 else 1 + DigitPrefixLength(s[1..])
  }

  function DecimalValue(digits: string): nat
    requires forall i :: 0 <= i < |digits| ==> IsDigit(digits[i])
  {
    if digits == [] then 0
    else
      var last := digits[|digits| - 1];
      assert IsDigit(last);
      10 * DecimalValue(digits[..|digits| - 1]) + (last as int - '0' as int)
  }

  /** `attr_as_int`: `std::from_chars` into an `int` that starts at 0. An
      optional `-` and the leading decimal digits are read; no digits, or a
      value outside the 32-bit range, leaves the 0. */
  function AttrAsInt(v: string): (r: int)
    ensures IntMin <= r <= IntMax
    ensures DigitPrefixLength(if |v| > 0 && v[0] == '-' then v[1..] else v) == 0 ==> r == 0
  {
    var negative := |v| > 0 && v[0] == '-';
    var body := if negative then v[1..] else v;
    var k := DigitPrefixLength(body);
    if k == 0 then 0
    else
      var magnitude := DecimalValue(body[..k]);
      var n: int := if negative then 0 - magnitude as int else magnitude as int;
      if IntMin <= n <= IntMax then n else 0
  }

  // ---------------------------------------------------------------------
  // The whole file

  datatype BazelDep = BazelDep(name: string, version: string)

  datatype Module = Module(name: string, version: string, compatibilityLevel: int, deps: seq<BazelDep>)

  /** `module_bazel::parse`: None for `std::nullopt`; a missing `name` on
      the `module` call throws `std::out_of_range` from `.at`. */
  datatype ParseResult = NotAModule | MissingName | Parsed(manifest: Module)

  /** The dependency a call adds: a `bazel_dep` with both a name and a
      version; every other call adds nothing. */
  function DepOf(c: Call): (d: Option<BazelDep>)
    requires NonEmptyValues(c.attrs)
    ensures d.Some? <==> c.name == "bazel_dep" && "name" in c.attrs && "version" in c.attrs
  {
    if c.name == "bazel_dep" && "name" in c.attrs && "version" in c.attrs then
      Some(BazelDep(AttrAsString(c.attrs["name"]), AttrAsString(c.attrs["version"])))
    else None
  }

  /** The dependencies of the calls in `rest`, in file order; the loop ends
      once the remaining text is blank. */
  function DepsFrom(rest: string): seq<BazelDep>
    decreases |rest|
  {
    if IsBlank(rest) then []
    else
      var c := CallOf(rest);
      match DepOf(c)
      case Some(d) => [d] + DepsFrom(c.after)
      case None => DepsFrom(c.after)
  }

  /** One iteration of the loop: the dependency of the next call, if any,
      then those of the text after it. */
  lemma DepsFromStep(rest: string, c: Call)
    requires !IsBlank(rest) && c == CallOf(rest)
    ensures DepsFrom(rest) == (if DepOf(c).Some? then [DepOf(c).value] else []) + DepsFrom(c.after)
  {
  }

  /** The module the first call declares, without dependencies: `version`
      defaults to empty and `compatibility_level` to 1. */
  function ModuleOf(first: Call): (r: ParseResult)
    requires NonEmptyValues(first.attrs)
    ensures r == NotAModule <==> first.name != "module"
    ensures r == MissingName <==> first.name == "module" && "name" !in first.attrs
    ensures r.Parsed? ==> r.manifest.deps == []
  {
    if first.name != "module" then NotAModule
    else if "name" !in first.attrs then MissingName
    else
      Parsed(Module(
        AttrAsString(first.attrs["name"]),
        if "version" in first.attrs then AttrAsString(first.attrs["version"]) else "",
        if "compatibility_level" in first.attrs then AttrAsInt(first.attrs["compatibility_level"]) else 1,
        []))
  }

  /** What `module_bazel::parse` returns for a whole file. */
  function ParseSpec(contents: string): ParseResult {
    var first := CallOf(contents);
    match ModuleOf(first)
    case Parsed(m) => Parsed(m.(deps := DepsFrom(first.after)))
    case r => r
  }

  lemma EmptyPrefix<T>(xs: seq<T>)
    ensures [] + xs == xs
  {
  }

  /** The loop of `module_bazel::parse`: one call per iteration while the
      remaining text is not blank, keeping each complete `bazel_dep`. */
  method CollectDeps(text: string) returns (deps: seq<BazelDep>)
    ensures deps == DepsFrom(text)
  {
    var rest := text;
    deps := [];
    EmptyPrefix(DepsFrom(text));
    while !IsBlank(rest)
      invariant deps + DepsFrom(rest) == DepsFrom(text)
      decreases |rest|
    {
      var result := ParseCall(rest);
      var dep := DepOf(result);
      var kept := if dep.Some? then [dep.value] else [];
      DepsFromStep(rest, result);
      assert deps + DepsFrom(rest) == (deps + kept) + DepsFrom(result.after);
      deps := deps + kept;
      rest := result.after;
    }
  }

  /** `module_bazel::parse`: the `module` call, then the dependencies. */
  method Parse(contents: string) returns (r: ParseResult)
    ensures r == ParseSpec(contents)
  {
    var first := ParseCall(contents);
    r := ModuleOf(first);
    if r.Parsed? {
      var deps := CollectDeps(first.after);
      r := Parsed(r.manifest.(deps := deps));
    }
  }

  // ---------------------------------------------------------------------
  // Rendering a manifest, and reading it back

  /** Text that can be written between quotes in a call: no `,` (it would
      split the attribute list) and no `)` (it would end the call). */
  predicate Quotable(x: string) {
    ',' !in x && ')' !in x
  }

  function Quoted(x: string): (q: string)
    ensures |q| == |x| + 2 && q[0] == '"' && q[|q| - 1] == '"'
  {
    "\"" + x + "\""
  }

  /** Decimal digits of a natural number, most significant first. */
  function DecimalText(n: nat): (s: string)
    ensures |s| >= 1
    ensures forall i :: 0 <= i < |s| ==> IsDigit(s[i])
  {
    if n < 10 then [('0' as int + n) as char]
    else DecimalText(n / 10) + [('0' as int + n % 10) as char]
  }

  /** How `std::format` writes an `int`. */
  function IntText(n: int): (s: string)
    ensures |s| >= 1 && IsDigit(s[|s| - 1])
    ensures forall i :: 0 <= i < |s| ==> IsDigit(s[i]) || (i == 0 && s[i] == '-')
  {
    if n < 0 then "-" + DecimalText(-n) else DecimalText(n)
  }

  /** A word that names a call or an attribute in rendered text: lower-case
      letters and underscores. */
  predicate IsWord(w: string) {
    w != [] && forall i :: 0 <= i < |w| ==> 'a' <= w[i] <= 'z' || w[i] == '_'
  }

  /** A value as rendered: non-empty, no whitespace at either end. */
  predicate IsValueText(v: string) {
    v != [] && !IsAsciiSpace(v[0]) && !IsAsciiSpace(v[|v| - 1]) && ',' !in v && ')' !in v
  }

  /** `key = value`, as the bzlreg sources write an attribute. */
  function AttrText(key: string, value: string): string {
    key + " = " + value
  }

  function NameAttr(name: string): string {
    AttrText("name", Quoted(name))
  }

  function VersionAttr(version: string): string {
    " " + AttrText("version", Quoted(version))
  }

  function LevelAttr(level: int): string {
    " " + AttrText("compatibility_level", IntText(level))
  }

  function DepAttrs(d: BazelDep): string {
    NameAttr(d.name) + "," + VersionAttr(d.version)
  }

  /** The line `bazel_exec` writes for a dependency:
      `bazel_dep(name = "<name>", version = "<version>")`. */
  function DepLine(d: BazelDep): string {
    "bazel_dep" + "(" + DepAttrs(d) + ")" + "\n"
  }

  function DepLines(deps: seq<BazelDep>): string {
    if deps == [] then "" else DepLine(deps[0]) + DepLines(deps[1..])
  }

  function ModuleAttrs(m: Module): string {
    NameAttr(m.name) + "," + VersionAttr(m.version) + "," + LevelAttr(m.compatibilityLevel)
  }

  /** A `module` line declaring name, version and compatibility level. */
  function ModuleLine(m: Module): string {
    "module" + "(" + ModuleAttrs(m) + ")" + "\n"
  }

  /** The manifest of a module: its `module` line, then one line per dependency. */
  function ManifestText(m: Module): string {
    ModuleLine(m) + DepLines(m.deps)
  }

  /** Modules whose manifest text reads back: every name and version is
      quotable and the level fits an `int`. */
  predicate Renderable(m: Module) {
    Quotable(m.name) && Quotable(m.version) && IntMin <= m.compatibilityLevel <= IntMax &&
    forall i :: 0 <= i < |m.deps| ==> Quotable(m.deps[i].name) && Quotable(m.deps[i].version)
  }

  lemma AttrAsStringQuoted(x: string)
    ensures AttrAsString(Quoted(x)) == x
  {
  }

  lemma {:induction false} DecimalTextValue(n: nat)
    ensures DecimalValue(DecimalText(n)) == n
  {
    if n >= 10 {
      var s := DecimalText(n);
      assert s[..|s| - 1] == DecimalText(n / 10);
      DecimalTextValue(n / 10);
    }
  }

  lemma {:induction false} DigitPrefixOfDigits(s: string)
    requires forall i :: 0 <= i < |s| ==> IsDigit(s[i])
    ensures DigitPrefixLength(s) == |s|
  {
    if s != [] {
      DigitPrefixOfDigits(s[1..]);
    }
  }

  /** `attr_as_int` reads back every `int` that `IntText` writes. */
  lemma AttrAsIntText(n: int)
    requires IntMin <= n <= IntMax
    ensures AttrAsInt(IntText(n)) == n
  {
    var v := IntText(n);
    if n < 0 {
      AttrAsIntOfDigits(v, DecimalText(-n), true);
      DecimalTextValue(-n);
    } else {
      AttrAsIntOfDigits(v, v, false);
      DecimalTextValue(n);
    }
  }

  /** An optional `-` and digits only: the whole digit run is read. */
  lemma AttrAsIntOfDigits(v: string, digits: string, negative: bool)
    requires v == if negative then "-" + digits else digits
    requires digits != [] && forall i :: 0 <= i < |digits| ==> IsDigit(digits[i])
    ensures var m := DecimalValue(digits) as int;
      var n := if negative then 0 - m else m;
      AttrAsInt(v) == if IntMin <= n <= IntMax then n else 0
  {
    DigitPrefixOfDigits(digits);
    assert digits[..|digits|] == digits;
    if negative {
      assert v[1..] == digits;
    } else {
      assert IsDigit(v[0]);
    }
  }

  /** The first `=` splits a piece whose left part has none. */
  lemma SplitFirstEqualsAt(left: string, right: string)
    requires '=' !in left
    ensures SplitFirstEquals(left + "=" + right) == [left, right]
  {
    var piece := left + "=" + right;
    FindFromIs(piece, '=', 0, |left|);
    assert piece[..|left|] == left;
    assert piece[|left| + 1..] == right;
  }

  /** A piece `left=right` whose sides are non-blank and whose left side
      holds no `=` binds the stripped sides. */
  lemma AttrOfSides(left: string, right: string)
    requires '=' !in left && !IsBlank(left) && !IsBlank(right)
    ensures AttrOf(left + "=" + right) == Some((Strip(left), Strip(right)))
  {
    SplitFirstEqualsAt(left, right);
  }

  lemma WordName() ensures IsWord("name") {}
  lemma WordVersion() ensures IsWord("version") {}
  lemma WordLevel() ensures IsWord("compatibility_level") {}
  lemma WordBazelDep() ensures IsWord("bazel_dep") {}
  lemma WordModule() ensures IsWord("module") {}

  /** A word has no whitespace and none of the punctuation of a call. */
  lemma WordChars(w: string)
    requires IsWord(w)
    ensures !IsAsciiSpace(w[0]) && !IsAsciiSpace(w[|w| - 1])
    ensures forall i :: 0 <= i < |w| ==> !IsAsciiSpace(w[i]) && w[i] !in "=(),"
  {
  }

  lemma QuotedIsValue(x: string)
    requires Quotable(x)
    ensures IsValueText(Quoted(x))
  {
  }

  lemma IntTextIsValue(n: int)
    ensures IsValueText(IntText(n))
  {
    var t := IntText(n);
    assert forall i :: 0 <= i < |t| ==> t[i] != ',' && t[i] != ')';
  }

  /** The key side `pre key ` of a rendered attribute. */
  lemma KeySide(pre: string, key: string)
    requires IsBlank(pre) && IsWord(key)
    ensures Strip(pre + key + " ") == key
    ensures '=' !in pre + key + " " && !IsBlank(pre + key + " ")
  {
    WordChars(key);
    var left := pre + key + " ";
    StripPadded(pre, key, " ");
    assert '=' !in pre by {
      forall j | 0 <= j < |pre| ensures pre[j] != '=' {
        assert IsAsciiSpace(pre[j]);
      }
    }
    assert '=' !in key by {
      forall j | 0 <= j < |key| ensures key[j] != '=' {
        assert key[j] !in "=(),";
      }
    }
    assert !IsAsciiSpace(left[|pre|]) by {
      assert left[|pre|] == key[0];
    }
  }

  /** The value side ` value` of a rendered attribute. */
  lemma ValueSide(value: string)
    requires IsValueText(value)
    ensures Strip(" " + value) == value && !IsBlank(" " + value)
  {
    assert " " + value == " " + value + "";
    StripPadded(" ", value, "");
    assert (" " + value)[1] == value[0];
  }

  lemma AttrTextShape(pre: string, key: string, value: string)
    ensures pre + AttrText(key, value) == (pre + key + " ") + "=" + (" " + value)
  {
  }

  /** One rendered attribute piece binds its key to its value. */
  lemma AttrOfText(pre: string, key: string, value: string)
    requires IsBlank(pre) && IsWord(key) && IsValueText(value)
    ensures AttrOf(pre + AttrText(key, value)) == Some((key, value))
  {
    KeySide(pre, key);
    ValueSide(value);
    AttrTextShape(pre, key, value);
    AttrOfSides(pre + key + " ", " " + value);
  }

  /** A rendered attribute piece is not blank and holds no `,` or `)`. */
  lemma AttrTextChars(pre: string, key: string, value: string)
    requires IsBlank(pre) && IsWord(key) && IsValueText(value)
    ensures ',' !in pre + AttrText(key, value) && ')' !in pre + AttrText(key, value)
    ensures !IsBlank(pre + AttrText(key, value))
  {
    WordChars(key);
    var piece := pre + AttrText(key, value);
    assert piece[|pre|] == key[0];
    forall j | 0 <= j < |piece| ensures piece[j] != ',' && piece[j] != ')' {
      if j < |pre| {
        assert IsAsciiSpace(pre[j]);
      } else if j < |pre| + |key| {
        assert piece[j] == key[j - |pre|];
      } else if j >= |pre| + |key| + 3 {
        assert piece[j] == value[j - |pre| - |key| - 3];
      }
    }
  }

  lemma NameAttrChars(name: string)
    requires Quotable(name)
    ensures ',' !in NameAttr(name) && ')' !in NameAttr(name) && !IsBlank(NameAttr(name))
  {
    WordName();
    QuotedIsValue(name);
    AttrTextChars("", "name", Quoted(name));
    assert "" + AttrText("name", Quoted(name)) == NameAttr(name);
  }

  lemma NameAttrBinds(name: string)
    requires Quotable(name)
    ensures AttrOf(NameAttr(name)) == Some(("name", Quoted(name)))
  {
    WordName();
    QuotedIsValue(name);
    AttrOfText("", "name", Quoted(name));
    assert "" + AttrText("name", Quoted(name)) == NameAttr(name);
  }

  lemma VersionAttrChars(version: string)
    requires Quotable(version)
    ensures ',' !in VersionAttr(version) && ')' !in VersionAttr(version) && !IsBlank(VersionAttr(version))
  {
    WordVersion();
    QuotedIsValue(version);
    AttrTextChars(" ", "version", Quoted(version));
  }

  lemma VersionAttrBinds(version: string)
    requires Quotable(version)
    ensures AttrOf(VersionAttr(version)) == Some(("version", Quoted(version)))
  {
    WordVersion();
    QuotedIsValue(version);
    AttrOfText(" ", "version", Quoted(version));
  }

  lemma LevelAttrChars(level: int)
    ensures ',' !in LevelAttr(level) && ')' !in LevelAttr(level) && !IsBlank(LevelAttr(level))
  {
    WordLevel();
    IntTextIsValue(level);
    AttrTextChars(" ", "compatibility_level", IntText(level));
  }

  lemma LevelAttrBinds(level: int)
    ensures AttrOf(LevelAttr(level)) == Some(("compatibility_level", IntText(level)))
  {
    WordLevel();
    IntTextIsValue(level);
    AttrOfText(" ", "compatibility_level", IntText(level));
  }

  lemma SkipBlankKeeps(pieces: seq<string>)
    requires forall i :: 0 <= i < |pieces| ==> !IsBlank(pieces[i])
    ensures SkipBlank(pieces) == pieces
  {
    if pieces != [] {
      SkipBlankKeeps(pieces[1..]);
      assert pieces == [pieces[0]] + pieces[1..];
    }
  }

  lemma CommaSplitOfTwo(a: string, b: string)
    requires ',' !in a && ',' !in b
    ensures Split(a + "," + b, [',']) == [a, b]
  {
    SplitSingleCons(a, ',', b);
    SplitSingleNone(b, ',');
    assert a + "," + b == a + [','] + b;
  }

  lemma SkipBlankCons(a: string, rest: seq<string>)
    requires !IsBlank(a)
    ensures SkipBlank([a] + rest) == [a] + SkipBlank(rest)
  {
    assert ([a] + rest)[1..] == rest;
  }

  /** Rendered attribute pieces, joined by commas, come back as the pieces. */
  lemma AttrPiecesOfTwo(a: string, b: string)
    requires ',' !in a && ',' !in b && !IsBlank(a) && !IsBlank(b)
    ensures AttrPieces(a + "," + b) == [a, b]
  {
    CommaSplitOfTwo(a, b);
    SkipBlankCons(a, [b]);
    SkipBlankCons(b, []);
    assert [a, b] == [a] + [b] && [b] == [b] + [];
  }

  lemma AttrPiecesOfThree(a: string, b: string, c: string)
    requires ',' !in a && ',' !in b && ',' !in c && !IsBlank(a) && !IsBlank(b) && !IsBlank(c)
    ensures AttrPieces(a + "," + b + "," + c) == [a, b, c]
  {
    var bc := b + "," + c;
    assert a + "," + b + "," + c == a + [','] + bc;
    SplitSingleCons(a, ',', bc);
    CommaSplitOfTwo(b, c);
    AttrPiecesOfTwo(b, c);
    SkipBlankCons(a, [b, c]);
    assert [a, b, c] == [a] + [b, c];
  }

  lemma NoCloseInJoin(a: string, b: string)
    requires ')' !in a && ')' !in b
    ensures ')' !in a + "," + b
  {
  }

  /** The call found at the first `(` and the first `)` after it. */
  lemma CallOfParts(text: string, open: nat, close: nat)
    requires open < close < |text|
    requires Find(text, '(') == Some(open) && FindFrom(text, ')', open) == Some(close)
    ensures CallOf(text) == CallAt(text, open, close)
  {
  }

  lemma CallOfAt(text: string, open: nat, close: nat, name: string, inner: string, rest: string)
    requires open < close < |text|
    requires Find(text, '(') == Some(open) && FindFrom(text, ')', open) == Some(close)
    requires Strip(text[..open]) == name && text[open + 1..close] == inner && text[close + 1..] == rest
    ensures CallOf(text) == Call(name, AttrsOf(AttrPieces(inner)), rest)
  {
    CallOfParts(text, open, close);
  }

  lemma OpenParenOfText(text: string, pre: string, name: string, inner: string, rest: string)
    requires text == pre + name + "(" + inner + ")" + rest
    requires IsBlank(pre) && IsWord(name)
    ensures Find(text, '(') == Some(|pre| + |name|)
  {
    WordChars(name);
    var open := |pre| + |name|;
    forall j | 0 <= j < open ensures text[j] != '(' {
      if j < |pre| {
        assert IsAsciiSpace(pre[j]);
      } else {
        assert text[j] == name[j - |pre|];
      }
    }
    FindFromIs(text, '(', 0, open);
  }

  lemma CloseParenOfText(text: string, pre: string, name: string, inner: string, rest: string)
    requires text == pre + name + "(" + inner + ")" + rest
    requires ')' !in inner
    ensures FindFrom(text, ')', |pre| + |name|) == Some(|pre| + |name| + 1 + |inner|)
  {
    var open := |pre| + |name|;
    var close := open + 1 + |inner|;
    forall j | open <= j < close ensures text[j] != ')' {
      if j > open {
        assert text[j] == inner[j - open - 1];
      }
    }
    FindFromIs(text, ')', open, close);
  }

  lemma SlicesOfText(text: string, pre: string, name: string, inner: string, rest: string)
    requires text == pre + name + "(" + inner + ")" + rest
    requires IsBlank(pre) && IsWord(name)
    ensures Strip(text[..|pre| + |name|]) == name
    ensures text[|pre| + |name| + 1..|pre| + |name| + 1 + |inner|] == inner
    ensures text[|pre| + |name| + 1 + |inner| + 1..] == rest
  {
    WordChars(name);
    assert text[..|pre| + |name|] == pre + name + "";
    StripPadded(pre, name, "");
  }

  /** A call written as `name(inner)` after blank text. */
  lemma CallOfText(text: string, pre: string, name: string, inner: string, rest: string)
    requires text == pre + name + "(" + inner + ")" + rest
    requires IsBlank(pre) && IsWord(name) && ')' !in inner
    ensures CallOf(text) == Call(name, AttrsOf(AttrPieces(inner)), rest)
  {
    OpenParenOfText(text, pre, name, inner, rest);
    CloseParenOfText(text, pre, name, inner, rest);
    SlicesOfText(text, pre, name, inner, rest);
    CallOfAt(text, |pre| + |name|, |pre| + |name| + 1 + |inner|, name, inner, rest);
  }

  lemma MapOfTwo(k1: string, v1: string, k2: string, v2: string)
    ensures MapOf([Some((k1, v1)), Some((k2, v2))]) == map[k1 := v1, k2 := v2]
  {
    var bs := [Some((k1, v1)), Some((k2, v2))];
    assert bs[..1] == [Some((k1, v1))];
    assert bs[..1][..0] == [];
    assert MapOf(bs[..1]) == map[k1 := v1];
    assert MapOf(bs) == MapOf(bs[..1])[k2 := v2];
  }

  lemma MapOfThree(k1: string, v1: string, k2: string, v2: string, k3: string, v3: string)
    ensures MapOf([Some((k1, v1)), Some((k2, v2)), Some((k3, v3))]) == map[k1 := v1, k2 := v2, k3 := v3]
  {
    var bs := [Some((k1, v1)), Some((k2, v2)), Some((k3, v3))];
    assert bs[..2] == [Some((k1, v1)), Some((k2, v2))];
    MapOfTwo(k1, v1, k2, v2);
    assert MapOf(bs) == MapOf(bs[..2])[k3 := v3];
  }

  lemma BindingsOfTwo(a: string, b: string)
    ensures Bindings([a, b]) == [AttrOf(a), AttrOf(b)]
  {
    var bs := Bindings([a, b]);
    assert bs[0] == AttrOf(a) && bs[1] == AttrOf(b);
  }

  /** Two binding pieces give a map of both bindings. */
  lemma AttrsOfTwo(a: string, b: string, ka: string, va: string, kb: string, vb: string)
    requires AttrOf(a) == Some((ka, va)) && AttrOf(b) == Some((kb, vb))
    ensures AttrsOf([a, b]) == map[ka := va, kb := vb]
  {
    BindingsOfTwo(a, b);
    MapOfTwo(ka, va, kb, vb);
  }

  lemma BindingsOfThree(a: string, b: string, c: string)
    ensures Bindings([a, b, c]) == [AttrOf(a), AttrOf(b), AttrOf(c)]
  {
    var bs := Bindings([a, b, c]);
    assert bs[0] == AttrOf(a) && bs[1] == AttrOf(b) && bs[2] == AttrOf(c);
  }

  lemma AttrsOfThree(a: string, b: string, c: string, ka: string, va: string, kb: string, vb: string, kc: string, vc: string)
    requires AttrOf(a) == Some((ka, va)) && AttrOf(b) == Some((kb, vb)) && AttrOf(c) == Some((kc, vc))
    ensures AttrsOf([a, b, c]) == map[ka := va, kb := vb, kc := vc]
  {
    BindingsOfThree(a, b, c);
    MapOfThree(ka, va, kb, vb, kc, vc);
  }

  /** The pieces of a rendered dependency's attribute list. */
  lemma DepPieces(d: BazelDep)
    requires Quotable(d.name) && Quotable(d.version)
    ensures ')' !in DepAttrs(d)
    ensures AttrPieces(DepAttrs(d)) == [NameAttr(d.name), VersionAttr(d.version)]
  {
    var a, b := NameAttr(d.name), VersionAttr(d.version);
    NameAttrChars(d.name);
    VersionAttrChars(d.version);
    NoCloseInJoin(a, b);
    AttrPiecesOfTwo(a, b);
  }

  /** The attributes of a rendered dependency. */
  lemma DepAttrsMap(d: BazelDep)
    requires Quotable(d.name) && Quotable(d.version)
    ensures ')' !in DepAttrs(d)
    ensures AttrsOf(AttrPieces(DepAttrs(d))) == map["name" := Quoted(d.name), "version" := Quoted(d.version)]
  {
    DepPieces(d);
    NameAttrBinds(d.name);
    VersionAttrBinds(d.version);
    AttrsOfTwo(NameAttr(d.name), VersionAttr(d.version), "name", Quoted(d.name), "version", Quoted(d.version));
  }

  /** The pieces of a rendered `module` call's attribute list. */
  lemma ModulePieces(m: Module)
    requires Quotable(m.name) && Quotable(m.version)
    ensures ')' !in ModuleAttrs(m)
    ensures AttrPieces(ModuleAttrs(m)) == [NameAttr(m.name), VersionAttr(m.version), LevelAttr(m.compatibilityLevel)]
  {
    var a, b, c := NameAttr(m.name), VersionAttr(m.version), LevelAttr(m.compatibilityLevel);
    NameAttrChars(m.name);
    VersionAttrChars(m.version);
    LevelAttrChars(m.compatibilityLevel);
    NoCloseInJoin(a, b);
    NoCloseInJoin(a + "," + b, c);
    AttrPiecesOfThree(a, b, c);
  }

  /** The attributes of a rendered `module` call. */
  lemma ModuleAttrsMap(m: Module)
    requires Quotable(m.name) && Quotable(m.version)
    ensures ')' !in ModuleAttrs(m)
    ensures AttrsOf(AttrPieces(ModuleAttrs(m))) ==
      map["name" := Quoted(m.name), "version" := Quoted(m.version), "compatibility_level" := IntText(m.compatibilityLevel)]
  {
    ModulePieces(m);
    NameAttrBinds(m.name);
    VersionAttrBinds(m.version);
    LevelAttrBinds(m.compatibilityLevel);
    AttrsOfThree(NameAttr(m.name), VersionAttr(m.version), LevelAttr(m.compatibilityLevel),
      "name", Quoted(m.name), "version", Quoted(m.version), "compatibility_level", IntText(m.compatibilityLevel));
  }

  lemma DepLineShape(pre: string, d: BazelDep, rest: string)
    ensures pre + DepLine(d) + rest == pre + "bazel_dep" + "(" + DepAttrs(d) + ")" + ("\n" + rest)
  {
  }

  /** The line `bazel_exec` writes is read as one `bazel_dep` call. */
  lemma CallOfDepLine(pre: string, d: BazelDep, rest: string)
    requires IsBlank(pre) && Quotable(d.name) && Quotable(d.version)
    ensures CallOf(pre + DepLine(d) + rest) ==
      Call("bazel_dep", map["name" := Quoted(d.name), "version" := Quoted(d.version)], "\n" + rest)
  {
    WordBazelDep();
    DepAttrsMap(d);
    DepLineShape(pre, d, rest);
    CallOfText(pre + DepLine(d) + rest, pre, "bazel_dep", DepAttrs(d), "\n" + rest);
  }

  /** That call adds exactly the dependency it was written from. */
  lemma DepOfDepLine(d: BazelDep, after: string)
    ensures DepOf(Call("bazel_dep", map["name" := Quoted(d.name), "version" := Quoted(d.version)], after)) == Some(d)
  {
    AttrAsStringQuoted(d.name);
    AttrAsStringQuoted(d.version);
  }

  lemma DepLineStart(d: BazelDep)
    ensures |DepLine(d)| > 0 && DepLine(d)[0] == 'b'
  {
  }

  lemma DepLinesShape(deps: seq<BazelDep>)
    requires deps != []
    ensures "\n" + DepLines(deps) == "\n" + DepLine(deps[0]) + DepLines(deps[1..])
    ensures !IsBlank("\n" + DepLines(deps))
  {
    DepLineStart(deps[0]);
    var text := "\n" + DepLines(deps);
    assert text[1] == 'b';
  }

  /** The first rendered line contributes its dependency, then reading
      goes on after it. */
  lemma DepLinesStep(deps: seq<BazelDep>)
    requires deps != [] && Quotable(deps[0].name) && Quotable(deps[0].version)
    ensures DepsFrom("\n" + DepLines(deps)) == [deps[0]] + DepsFrom("\n" + DepLines(deps[1..]))
  {
    var d := deps[0];
    var text := "\n" + DepLines(deps);
    DepLinesShape(deps);
    assert IsBlank("\n");
    CallOfDepLine("\n", d, DepLines(deps[1..]));
    DepOfDepLine(d, "\n" + DepLines(deps[1..]));
    DepsFromStep(text, CallOf(text));
  }

  /** The dependencies of rendered lines are the rendered dependencies. */
  lemma {:induction false} DepsFromDepLines(deps: seq<BazelDep>)
    requires forall i :: 0 <= i < |deps| ==> Quotable(deps[i].name) && Quotable(deps[i].version)
    ensures DepsFrom("\n" + DepLines(deps)) == deps
  {
    if deps != [] {
      DepLinesStep(deps);
      DepsFromDepLines(deps[1..]);
    } else {
      assert IsBlank("\n" + DepLines(deps));
    }
  }

  /** A file holding one rendered line declares exactly that dependency. */
  lemma DepsFromDepLine(d: BazelDep)
    requires Quotable(d.name) && Quotable(d.version)
    ensures DepsFrom(DepLine(d)) == [d]
  {
    var text := DepLine(d);
    CallOfDepLineAlone(d);
    DepOfDepLine(d, "\n");
    assert IsBlank("\n");
    assert !IsBlank(text) by {
      DepLineStart(d);
    }
    DepsFromOneCall(text, d);
  }

  lemma CallOfDepLineAlone(d: BazelDep)
    requires Quotable(d.name) && Quotable(d.version)
    ensures CallOf(DepLine(d)) ==
      Call("bazel_dep", map["name" := Quoted(d.name), "version" := Quoted(d.version)], "\n")
  {
    assert "" + DepLine(d) + "" == DepLine(d);
    assert IsBlank("");
    CallOfDepLine("", d, "");
  }

  /** A text whose one call adds `d`, with nothing but blanks after it. */
  lemma DepsFromOneCall(text: string, d: BazelDep)
    requires !IsBlank(text) && DepOf(CallOf(text)) == Some(d) && IsBlank(CallOf(text).after)
    ensures DepsFrom(text) == [d]
  {
    DepsFromStep(text, CallOf(text));
  }

  lemma ModuleLineShape(m: Module, rest: string)
    ensures ModuleLine(m) + rest == "" + "module" + "(" + ModuleAttrs(m) + ")" + ("\n" + rest)
  {
  }

  /** The `module` line is read as a `module` call declaring the module. */
  lemma ModuleOfModuleLine(m: Module, rest: string)
    requires Renderable(m)
    ensures CallOf(ModuleLine(m) + rest).after == "\n" + rest
    ensures ModuleOf(CallOf(ModuleLine(m) + rest)) == Parsed(m.(deps := []))
  {
    WordModule();
    ModuleAttrsMap(m);
    assert IsBlank("");
    ModuleLineShape(m, rest);
    CallOfText(ModuleLine(m) + rest, "", "module", ModuleAttrs(m), "\n" + rest);
    AttrAsStringQuoted(m.name);
    AttrAsStringQuoted(m.version);
    AttrAsIntText(m.compatibilityLevel);
  }

  /** Reading a rendered manifest gives back the module it was rendered from. */
  lemma ParseManifestText(m: Module)
    requires Renderable(m)
    ensures ParseSpec(ManifestText(m)) == Parsed(m)
  {
    ModuleOfModuleLine(m, DepLines(m.deps));
    DepsFromDepLines(m.deps);
  }
}
