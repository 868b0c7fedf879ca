/** The `{{key}}` template engine of model/command.go (`Template` and
    `getVariable`).

    The scan runs left to right. `{{` opens a placeholder whose key is the
    verbatim text up to the first following `}}`; the key is looked up in
    the variable map and the value is appended without being rescanned.
    A `{` that is not followed by a second `{` is dropped, a `{{` with no
    later `}}` drops the rest of the string, and a key missing from the map
    is a failure naming the key (the Go code panics with that key).
 */
module TemplateEngine {
  import opened Bytes
  import opened Results

  type Vars = map<Bytes, Bytes>

  datatype TemplateError = MissingKey(key: Bytes)

  /** How a byte outside any placeholder reaches the output. `Verbatim`
      copies the byte; `RuneConversion` is what `string(value[i])` does in
      Go, where converting a byte to a string yields the UTF-8 encoding of
      the code point with that value. */
  datatype CopyMode = Verbatim | RuneConversion

  /** Go's `string(b)` for a byte `b`: the UTF-8 encoding of code point `b`. */
  function RuneBytes(b: Byte): (r: Bytes)
    ensures b as int < 0x80 ==> r == [b]
    ensures 0x80 <= b as int ==> |r| == 2 && r != [b]
    ensures 0x80 <= b as int ==>
      (r[0] as int - 0xC0) * 0x40 + (r[1] as int - 0x80) == b as int
    ensures 0x80 <= b as int ==> 0xC0 <= r[0] as int < 0xE0 && 0x80 <= r[1] as int < 0xC0
  {
    if b as int < 0x80 then [b]
    else if b as int < 0xC0 then [0xC2 as char, b]
    else [0xC3 as char, (b as int - 0x40) as char]
  }

  function Copy(mode: CopyMode, b: Byte): Bytes
  {
    match mode
    case Verbatim => [b]
    case RuneConversion => RuneBytes(b)
  }

  /** A `}}` starts at offset `j` of `s`. */
  predicate ClosesAt(s: Bytes, j: int) {
    0 <= j && j + 1 < |s| && s[j] == '}' && s[j + 1] == '}'
  }

  /** Offset in `s` of the first `}}`, or `|s|` when `s` holds none: the
      loop of `getVariable`, started just after `{{`. */
  function KeyEnd(s: Bytes): (e: nat)
    ensures e <= |s|
    ensures e < |s| ==> ClosesAt(s, e)
    ensures forall j :: 0 <= j < e ==> !ClosesAt(s, j)
  {
    if |s| < 2 then |s|
    else if s[0] == '}' && s[1] == '}' then 0
    else
      var e := KeyEnd(s[1..]);
      assert forall j :: 1 <= j <= e ==> (ClosesAt(s, j) <==> ClosesAt(s[1..], j - 1));
      1 + e
  }

  /** Prepends `p` to a successful result. */
  function Prepend(p: Bytes, r: Result<Bytes, TemplateError>): Result<Bytes, TemplateError>
  {
    match r
    case Success(v) => Success(p + v)
    case Failure(e) => Failure(e)
  }

  /** The scan of `Template`, with the copy of plain bytes chosen by `mode`. */
  function Expand(mode: CopyMode, vars: Vars, s: Bytes): (r: Result<Bytes, TemplateError>)
    ensures r.Failure? ==> r.error.key !in vars
    decreases |s|
  {
    if |s| == 0 then Success([])
    else if s[0] == '{' then
      if |s| > 1 && s[1] == '{' then
        var rest := s[2..];
        var e := KeyEnd(rest);
        if e == |rest| then Success([])
        else if rest[..e] !in vars then Failure(MissingKey(rest[..e]))
        else Prepend(vars[rest[..e]], Expand(mode, vars, rest[e + 2..]))
      else Expand(mode, vars, s[1..])
    else Prepend(Copy(mode, s[0]), Expand(mode, vars, s[1..]))
  }

  /** `Template(vars, value)` with each plain byte copied as it stands. */
  function Template(vars: Vars, s: Bytes): (r: Result<Bytes, TemplateError>)
    ensures r.Failure? ==> r.error.key !in vars
  {
    Expand(Verbatim, vars, s)
  }

  /** `Template(vars, value)` exactly as written: each plain byte goes
      through Go's byte-to-rune conversion. */
  function TemplateAsWritten(vars: Vars, s: Bytes): (r: Result<Bytes, TemplateError>)
    ensures r.Failure? ==> r.error.key !in vars
  {
    Expand(RuneConversion, vars, s)
  }

  /** The keys `Template` looks up in `s`, in scan order. */
  function Refs(s: Bytes): seq<Bytes>
    decreases |s|
  {
    if |s| == 0 then []
    else if s[0] == '{' then
      if |s| > 1 && s[1] == '{' then
        var rest := s[2..];
        var e := KeyEnd(rest);
        if e == |rest| then []
        else [rest[..e]] + Refs(rest[e + 2..])
      else Refs(s[1..])
    else Refs(s[1..])
  }

  /** A key that a placeholder can spell: it holds no `}}` and does not end
      in `}`, so the first `}}` after it is the one that closes it. */
  predicate PlainKey(k: Bytes) {
    forall j :: 0 <= j < |k| && k[j] == '}' ==> j + 1 < |k| && k[j + 1] != '}'
  }

  /** `s` has no two adjacent `{`, so it opens no placeholder. */
  predicate NoOpen(s: Bytes) {
    forall j :: 0 <= j < |s| - 1 ==> !(s[j] == '{' && s[j + 1] == '{')
  }

  /** `s` with every `{` removed. */
  function DropBraces(s: Bytes): (r: Bytes)
    ensures '{' !in r
    ensures |r| <= |s|
  {
    if |s| == 0 then []
    else if s[0] == '{' then DropBraces(s[1..])
    else [s[0]] + DropBraces(s[1..])
  }

  /** The plain bytes of `p`, copied one by one as `mode` copies them. */
  function CopyAll(mode: CopyMode, p: Bytes): Bytes
  {
    if |p| == 0 then [] else Copy(mode, p[0]) + CopyAll(mode, p[1..])
  }

  predicate Ascii(s: Bytes) {
    forall i :: 0 <= i < |s| ==> s[i] as int < 0x80
  }

  lemma {:induction false} CopyAllVerbatim(p: Bytes)
    ensures CopyAll(Verbatim, p) == p
  {
    if |p| > 0 {
      CopyAllVerbatim(p[1..]);
    }
  }

  lemma PrependFailure(p: Bytes, r: Result<Bytes, TemplateError>)
    requires r.Failure?
    ensures Prepend(p, r) == r
  {
  }

  lemma PrependPrepend(a: Bytes, b: Bytes, r: Result<Bytes, TemplateError>)
    ensures Prepend(a, Prepend(b, r)) == Prepend(a + b, r)
  {
    if r.Success? {
      assert a + (b + r.value) == (a + b) + r.value;
    }
  }

  /** A prefix without `{` is copied and the scan carries on after it. */
  lemma {:induction false} ExpandPlainPrefix(mode: CopyMode, vars: Vars, p: Bytes, q: Bytes)
    requires '{' !in p
    ensures Expand(mode, vars, p + q) == Prepend(CopyAll(mode, p), Expand(mode, vars, q))
  {
    if |p| == 0 {
      assert p + q == q;
      assert Prepend([], Expand(mode, vars, q)) == Expand(mode, vars, q) by {
        if Expand(mode, vars, q).Success? {
          assert [] + Expand(mode, vars, q).value == Expand(mode, vars, q).value;
        }
      }
    } else {
      assert (p + q)[0] == p[0];
      assert (p + q)[1..] == p[1..] + q;
      ExpandPlainPrefix(mode, vars, p[1..], q);
      PrependPrepend(Copy(mode, p[0]), CopyAll(mode, p[1..]), Expand(mode, vars, q));
    }
  }

  /** Text before a placeholder is preserved: a `{`-free prefix comes
      through unchanged. */
  lemma TemplatePlainPrefix(vars: Vars, p: Bytes, q: Bytes)
    requires '{' !in p
    ensures Template(vars, p + q) == Prepend(p, Template(vars, q))
  {
    ExpandPlainPrefix(Verbatim, vars, p, q);
    CopyAllVerbatim(p);
  }

  /** Identity without braces: for every map, a string with no `{` is
      returned unchanged, `}` included. */
  lemma TemplateIdentity(vars: Vars, s: Bytes)
    requires '{' !in s
    ensures Template(vars, s) == Success(s)
  {
    TemplatePlainPrefix(vars, s, []);
    assert s + [] == s;
  }

  /** Stray braces: when no `{{` occurs, the result is the input with every
      `{` dropped and nothing else changed. */
  lemma {:induction false} TemplateStrayBraces(vars: Vars, s: Bytes)
    requires NoOpen(s)
    ensures Template(vars, s) == Success(DropBraces(s))
  {
    if |s| > 0 {
      assert NoOpen(s[1..]);
      TemplateStrayBraces(vars, s[1..]);
    }
  }

  /** Stray braces next to anything: a prefix that opens no placeholder,
      and whose last `{` is not completed to `{{` by the text after it, comes
      through with every `{` dropped, and the scan carries on after it. */
  lemma {:induction false} TemplateStrayPrefix(vars: Vars, p: Bytes, q: Bytes)
    requires NoOpen(p)
    requires |p| > 0 && p[|p| - 1] == '{' ==> |q| == 0 || q[0] != '{'
    ensures Template(vars, p + q) == Prepend(DropBraces(p), Template(vars, q))
  {
    if |p| == 0 {
      assert p + q == q;
      assert Prepend([], Template(vars, q)) == Template(vars, q) by {
        if Template(vars, q).Success? {
          assert [] + Template(vars, q).value == Template(vars, q).value;
        }
      }
    } else {
      assert (p + q)[0] == p[0];
      assert (p + q)[1..] == p[1..] + q;
      assert NoOpen(p[1..]);
      TemplateStrayPrefix(vars, p[1..], q);
      if p[0] == '{' {
        if |p + q| > 1 {
          if |p| > 1 { assert (p + q)[1] == p[1]; } else { assert (p + q)[1] == q[0]; }
        }
        ExpandHeadStray(Verbatim, vars, p + q);
      } else {
        ExpandHeadPlain(Verbatim, vars, p + q);
        PrependPrepend([p[0]], DropBraces(p[1..]), Template(vars, q));
      }
    }
  }

  /** A stray `{` right before a placeholder is dropped and the placeholder
      is still substituted. */
  lemma TemplateStrayBeforePlaceholderExample()
    ensures Template(map["k" := "v"], "a{b{{k}}") == Success("abv")
  {
    var vars: Vars := map["k" := "v"];
    var p: Bytes, k: Bytes := "a{b", "k";
    var q: Bytes := "{{" + k + "}}" + [];
    assert "a{b{{k}}" == p + q;
    TemplateStrayPrefix(vars, p, q);
    assert PlainKey(k);
    TemplatePlaceholder(vars, k, []);
    TemplateIdentity(vars, []);
    assert DropBraces(p) == "ab";
    assert "ab" + ("v" + []) == "abv";
  }

  /** The first `}}` after a plain key is the one written right after it. */
  lemma KeyEndAfterPlainKey(k: Bytes, q: Bytes)
    requires PlainKey(k)
    ensures KeyEnd(k + "}}" + q) == |k|
  {
    var s := k + "}}" + q;
    assert ClosesAt(s, |k|);
    forall j | 0 <= j < |k|
      ensures !ClosesAt(s, j)
    {
      assert s[j] == k[j];
      if j + 1 < |k| { assert s[j + 1] == k[j + 1]; }
    }
  }

  /** Substitution: `{{k}}` becomes the value of `k`, and the text after it
      is templated in turn; an unmapped key fails naming that key. */
  lemma TemplatePlaceholder(vars: Vars, k: Bytes, q: Bytes)
    requires PlainKey(k)
    ensures Template(vars, "{{" + k + "}}" + q) ==
      if k in vars then Prepend(vars[k], Template(vars, q)) else Failure(MissingKey(k))
  {
    var s := "{{" + k + "}}" + q;
    assert s[0] == '{' && s[1] == '{';
    assert s[2..] == k + "}}" + q;
    KeyEndAfterPlainKey(k, q);
    assert s[2..][..|k|] == k;
    assert s[2..][|k| + 2..] == q;
  }

  /** Substitution inside text: the text on both sides of a placeholder is
      preserved. */
  lemma TemplateSubstitution(vars: Vars, p: Bytes, k: Bytes, q: Bytes)
    requires '{' !in p && '{' !in q
    requires PlainKey(k) && k in vars
    ensures Template(vars, p + "{{" + k + "}}" + q) == Success(p + vars[k] + q)
  {
    assert p + "{{" + k + "}}" + q == p + ("{{" + k + "}}" + q);
    TemplatePlainPrefix(vars, p, "{{" + k + "}}" + q);
    TemplatePlaceholder(vars, k, q);
    TemplateIdentity(vars, q);
    assert p + (vars[k] + q) == p + vars[k] + q;
  }

  /** An unterminated `{{` swallows the rest of the string without a lookup
      and without failing. */
  lemma TemplateUnterminated(vars: Vars, p: Bytes, rest: Bytes)
    requires '{' !in p
    requires forall j :: 0 <= j < |rest| ==> !ClosesAt(rest, j)
    ensures Template(vars, p + "{{" + rest) == Success(p)
  {
    var s := "{{" + rest;
    assert s[0] == '{' && s[1] == '{' && s[2..] == rest;
    assert KeyEnd(rest) == |rest|;
    assert p + "{{" + rest == p + s;
    TemplatePlainPrefix(vars, p, s);
    assert p + [] == p;
  }

  /** A scan that succeeds found every key it reached in the map. */
  lemma {:induction false} ExpandSuccessMapsAll(mode: CopyMode, vars: Vars, s: Bytes)
    requires Expand(mode, vars, s).Success?
    ensures forall i :: 0 <= i < |Refs(s)| ==> Refs(s)[i] in vars
    decreases |s|
  {
    if |s| > 0 && s[0] == '{' && |s| > 1 && s[1] == '{' {
      var rest := s[2..];
      var e := KeyEnd(rest);
      if e < |rest| {
        ExpandSuccessMapsAll(mode, vars, rest[e + 2..]);
        assert Refs(s) == [rest[..e]] + Refs(rest[e + 2..]);
      }
    } else if |s| > 0 {
      assert Refs(s) == Refs(s[1..]);
      ExpandSuccessMapsAll(mode, vars, s[1..]);
    }
  }

  /** `key` is the first entry of `refs` that `vars` lacks. */
  predicate FirstUnmapped(refs: seq<Bytes>, vars: Vars, key: Bytes) {
    exists i :: 0 <= i < |refs| && refs[i] == key && key !in vars &&
      (forall j :: 0 <= j < i ==> refs[j] in vars)
  }

  lemma FirstUnmappedAfterMapped(r: Bytes, refs: seq<Bytes>, vars: Vars, key: Bytes)
    requires r in vars && FirstUnmapped(refs, vars, key)
    ensures FirstUnmapped([r] + refs, vars, key)
  {
    var i :| 0 <= i < |refs| && refs[i] == key && key !in vars &&
      (forall j :: 0 <= j < i ==> refs[j] in vars);
    assert ([r] + refs)[i + 1] == key;
  }

  /** The keys of a string that opens with a closed placeholder: its key,
      then those after the `}}`. */
  lemma RefsHeadOpen(s: Bytes)
    requires |s| > 1 && s[0] == '{' && s[1] == '{' && KeyEnd(s[2..]) < |s| - 2
    ensures Refs(s) == [s[2..2 + KeyEnd(s[2..])]] + Refs(s[KeyEnd(s[2..]) + 4..])
  {
    var e := KeyEnd(s[2..]);
    assert s[2..][..e] == s[2..2 + e];
    assert s[2..][e + 2..] == s[e + 4..];
  }

  /** Missing key: a failing scan names the first key it reached that the
      map lacks. */
  lemma {:induction false} ExpandFailsOnFirstUnmapped(mode: CopyMode, vars: Vars, s: Bytes)
    requires Expand(mode, vars, s).Failure?
    ensures FirstUnmapped(Refs(s), vars, Expand(mode, vars, s).error.key)
    decreases |s|
  {
    if s[0] == '{' && |s| > 1 && s[1] == '{' {
      var rest := s[2..];
      var e := KeyEnd(rest);
      ExpandHeadOpen(mode, vars, s);
      var key := s[2..2 + e];
      RefsHeadOpen(s);
      if key !in vars {
        assert Refs(s)[0] == key;
      } else {
        ExpandFailsOnFirstUnmapped(mode, vars, s[e + 4..]);
        FirstUnmappedAfterMapped(key, Refs(s[e + 4..]), vars, Expand(mode, vars, s).error.key);
      }
    } else {
      assert Refs(s) == Refs(s[1..]);
      ExpandFailsOnFirstUnmapped(mode, vars, s[1..]);
    }
  }

  /** `Template` succeeds exactly when every key it reaches is mapped. */
  lemma TemplateSucceedsIffMapped(vars: Vars, s: Bytes)
    ensures Template(vars, s).Success? <==>
      forall i :: 0 <= i < |Refs(s)| ==> Refs(s)[i] in vars
  {
    if Template(vars, s).Success? {
      ExpandSuccessMapsAll(Verbatim, vars, s);
    } else {
      ExpandFailsOnFirstUnmapped(Verbatim, vars, s);
      var key := Expand(Verbatim, vars, s).error.key;
      var i :| 0 <= i < |Refs(s)| && Refs(s)[i] == key && key !in vars &&
        (forall j :: 0 <= j < i ==> Refs(s)[j] in vars);
      assert Refs(s)[i] !in vars;
    }
  }

  /** The result depends on the map only through the keys the scan reaches. */
  lemma {:induction false} ExpandFrame(mode: CopyMode, vars: Vars, vars': Vars, s: Bytes)
    requires forall k :: k in Refs(s) ==>
      (k in vars <==> k in vars') && (k in vars ==> vars[k] == vars'[k])
    ensures Expand(mode, vars, s) == Expand(mode, vars', s)
    decreases |s|
  {
    if |s| == 0 {
    } else if s[0] == '{' {
      if |s| > 1 && s[1] == '{' {
        var rest := s[2..];
        var e := KeyEnd(rest);
        if e < |rest| {
          var key := rest[..e];
          assert Refs(s) == [key] + Refs(rest[e + 2..]);
          assert key in Refs(s);
          if key in vars {
            ExpandFrame(mode, vars, vars', rest[e + 2..]);
          }
        }
      } else {
        ExpandFrame(mode, vars, vars', s[1..]);
      }
    } else {
      ExpandFrame(mode, vars, vars', s[1..]);
    }
  }

  /** Single pass: a substituted value is never rescanned, so a value that
      itself spells a placeholder comes out literally, even unmapped. */
  lemma TemplateSinglePass()
    ensures Template(map["x" := "{{y}}"], "{{x}}") == Success("{{y}}")
  {
    assert PlainKey("x");
    assert "{{x}}" == "{{" + "x" + "}}" + [];
    TemplatePlaceholder(map["x" := "{{y}}"], "x", []);
    assert "{{y}}" + [] == "{{y}}";
  }

  /** Example: a mapped key is replaced in place. */
  lemma TemplateDeployExample()
    ensures Template(map["env" := "prod"], "deploy {{env}}") == Success("deploy prod")
  {
    var p: Bytes, k: Bytes, v: Bytes := "deploy ", "env", "prod";
    var s := p + "{{" + k + "}}" + [];
    assert PlainKey(k);
    TemplateSubstitution(map[k := v], p, k, []);
    assert s == "deploy {{env}}";
    assert p + v + [] == "deploy prod";
  }

  /** Example: an unmapped key fails, naming the key. */
  lemma TemplateMissingExample()
    ensures Template(map[], "{{missing}}") == Failure(MissingKey("missing"))
  {
    var k: Bytes := "missing";
    assert PlainKey(k);
    assert "{{missing}}" == "{{" + k + "}}" + [];
    TemplatePlaceholder(map[], k, []);
  }

  /** The code as written agrees with the corrected engine on ASCII input. */
  lemma {:induction false} AsWrittenAgreesOnAscii(vars: Vars, s: Bytes)
    requires Ascii(s)
    ensures TemplateAsWritten(vars, s) == Template(vars, s)
    decreases |s|
  {
    if |s| > 0 {
      if s[0] == '{' && |s| > 1 && s[1] == '{' {
        var rest := s[2..];
        var e := KeyEnd(rest);
        if e < |rest| {
          assert rest[e + 2..] == s[e + 4..];
          AsWrittenAgreesOnAscii(vars, rest[e + 2..]);
        }
      } else {
        AsWrittenAgreesOnAscii(vars, s[1..]);
      }
    }
  }

  /** The code as written re-encodes a byte of 0x80 or more as two bytes,
      so a brace-free non-ASCII string is not returned unchanged. */
  lemma AsWrittenMangles()
    ensures TemplateAsWritten(map[], [0xC3 as char]) == Success([0xC3 as char, 0x83 as char])
    ensures Template(map[], [0xC3 as char]) == Success([0xC3 as char])
  {
    var s: Bytes := [0xC3 as char];
    assert s[1..] == [];
    assert Expand(RuneConversion, map[], s) == Prepend(RuneBytes(s[0]), Expand(RuneConversion, map[], []));
    assert Expand(Verbatim, map[], s) == Prepend([s[0]], Expand(Verbatim, map[], []));
    assert RuneBytes(s[0]) == [0xC3 as char, 0x83 as char];
    assert RuneBytes(s[0]) + [] == RuneBytes(s[0]);
    assert [s[0]] + [] == s;
    assert TemplateAsWritten(map[], s) == Expand(RuneConversion, map[], s);
    assert Template(map[], s) == Expand(Verbatim, map[], s);
  }

  /** `{{` at `i` with no `}}` after it: the rest yields nothing, and the
      scan is over. */
  lemma PlaceholderUnterminated(mode: CopyMode, vars: Vars, value: Bytes, i: nat, next: nat, v: Result<Bytes, TemplateError>)
    requires i + 1 < |value| && value[i] == '{' && value[i + 1] == '{'
    requires VariableAt(vars, value, i + 2, next, v)
    requires KeyEnd(value[i + 2..]) == |value| - i - 2
    ensures v.Success?
    ensures Expand(mode, vars, RestFrom(value, i)) == Prepend(v.value, Expand(mode, vars, RestFrom(value, next + 1)))
  {
    var rest := value[i..];
    assert RestFrom(value, i) == rest;
    assert rest[2..] == value[i + 2..];
    ExpandHeadOpen(mode, vars, rest);
    assert v.value + [] == v.value;
  }

  /** `{{` at `i` closed `e` bytes after the braces: the key between is
      looked up, and on a hit the scan resumes after the `}}`. */
  lemma ExpandOpenClosed(mode: CopyMode, vars: Vars, value: Bytes, i: nat, e: nat, j: nat, key: Bytes)
    requires i + 1 < |value| && value[i] == '{' && value[i + 1] == '{'
    requires e == KeyEnd(value[i + 2..]) < |value| - i - 2
    requires j == i + e + 4
    requires key == value[i + 2..i + 2 + e]
    ensures key in vars ==> Expand(mode, vars, RestFrom(value, i)) == Prepend(vars[key], Expand(mode, vars, RestFrom(value, j)))
    ensures key !in vars ==> Expand(mode, vars, RestFrom(value, i)) == Failure(MissingKey(key))
  {
    var rest := value[i..];
    assert RestFrom(value, i) == rest;
    assert RestFrom(value, j) == value[i + e + 4..];
    assert rest[2..] == value[i + 2..];
    ExpandHeadOpen(mode, vars, rest);
    assert rest[2..2 + e] == value[i + 2..i + 2 + e];
    assert rest[e + 4..] == value[i + e + 4..];
  }

  /** What `getVariable` returns when started at `i`: the index of the
      second `}` of the first `}}` with the looked-up value, or `|value|` and
      the empty string when no `}}` follows. */
  predicate VariableAt(vars: Vars, value: Bytes, i: nat, next: nat, v: Result<Bytes, TemplateError>)
    requires i <= |value|
  {
    var e := KeyEnd(value[i..]);
    var key := value[i..i + e];
    if e == |value| - i then next == |value| && v == Success([])
    else next == i + e + 1 && v == (if key in vars then Success(vars[key]) else Failure(MissingKey(key)))
  }

  /** The same step with the lookup's outcome `v` named, in the shape the
      loop uses. */
  lemma PlaceholderClosed(mode: CopyMode, vars: Vars, value: Bytes, i: nat, next: nat, v: Result<Bytes, TemplateError>)
    requires i + 1 < |value| && value[i] == '{' && value[i + 1] == '{'
    requires VariableAt(vars, value, i + 2, next, v)
    requires KeyEnd(value[i + 2..]) < |value| - i - 2
    ensures v.Failure? ==> Expand(mode, vars, RestFrom(value, i)) == v
    ensures v.Success? ==>
      Expand(mode, vars, RestFrom(value, i)) == Prepend(v.value, Expand(mode, vars, RestFrom(value, next + 1)))
  {
    var e := KeyEnd(value[i + 2..]);
    var key := value[i + 2..i + 2 + e];
    ExpandOpenClosed(mode, vars, value, i, e, next + 1, key);
    if key in vars {
      assert v == Success(vars[key]);
    } else {
      assert v == Failure(MissingKey(key));
    }
  }

  /** A `{{` at `i` resolved by `getVariable` from `i + 2` is one step of
      the scan on the suffix starting at `i`. */
  lemma PlaceholderStep(mode: CopyMode, vars: Vars, value: Bytes, i: nat, next: nat, v: Result<Bytes, TemplateError>)
    requires i + 1 < |value| && value[i] == '{' && value[i + 1] == '{'
    requires VariableAt(vars, value, i + 2, next, v)
    ensures i + 2 < next + 1 <= |value| + 1
    ensures v.Failure? ==> Expand(mode, vars, RestFrom(value, i)) == v
    ensures v.Success? ==>
      Expand(mode, vars, RestFrom(value, i)) == Prepend(v.value, Expand(mode, vars, RestFrom(value, next + 1)))
  {
    if KeyEnd(value[i + 2..]) == |value| - i - 2 {
      PlaceholderUnterminated(mode, vars, value, i, next, v);
    } else {
      PlaceholderClosed(mode, vars, value, i, next, v);
    }
  }

  /** `getVariable`: scans from `i` for the first `}}` and looks up the text
      before it. Returns the index of the second `}` of the pair with the
      value, or `|value|` and the empty string when no pair follows. */
  method GetVariable(vars: Vars, value: Bytes, i: nat) returns (next: nat, v: Result<Bytes, TemplateError>)
    requires i <= |value|
    ensures VariableAt(vars, value, i, next, v)
  {
    var start := i;
    var j := i;
    while j < |value|
      invariant start <= j <= |value|
      invariant forall m :: 0 <= m < j - start ==> !ClosesAt(value[start..], m)
    {
      if value[j] == '}' && j < |value| - 1 && value[j + 1] == '}' {
        assert KeyEnd(value[start..]) == j - start by {
          assert ClosesAt(value[start..], j - start);
        }
        var key := value[start..j];
        if key !in vars {
          return j + 1, Failure(MissingKey(key));
        }
        return j + 1, Success(vars[key]);
      }
      j := j + 1;
    }
    assert KeyEnd(value[start..]) == |value| - start;
    return |value|, Success([]);
  }

  /** A plain byte at the head is copied as `mode` copies it. */
  lemma ExpandHeadPlain(mode: CopyMode, vars: Vars, s: Bytes)
    requires |s| > 0 && s[0] != '{'
    ensures Expand(mode, vars, s) == Prepend(Copy(mode, s[0]), Expand(mode, vars, s[1..]))
  {
  }

  /** A `{` at the head not followed by `{` is dropped. */
  lemma ExpandHeadStray(mode: CopyMode, vars: Vars, s: Bytes)
    requires |s| > 0 && s[0] == '{' && !(|s| > 1 && s[1] == '{')
    ensures Expand(mode, vars, s) == Expand(mode, vars, s[1..])
  {
  }

  /** A `{{` at the head is resolved by the first `}}` after it, if any. */
  lemma ExpandHeadOpen(mode: CopyMode, vars: Vars, s: Bytes)
    requires |s| > 1 && s[0] == '{' && s[1] == '{'
    ensures KeyEnd(s[2..]) == |s| - 2 ==> Expand(mode, vars, s) == Success([])
    ensures KeyEnd(s[2..]) < |s| - 2 ==>
      var key := s[2..2 + KeyEnd(s[2..])];
      Expand(mode, vars, s) ==
        if key in vars then Prepend(vars[key], Expand(mode, vars, s[KeyEnd(s[2..]) + 4..]))
        else Failure(MissingKey(key))
  {
    var e := KeyEnd(s[2..]);
    if e < |s| - 2 {
      assert s[2..][..e] == s[2..2 + e];
      assert s[2..][e + 2..] == s[e + 4..];
    }
  }

  /** The unscanned part of `value` once the index has reached `i`; the
      index can step one past the end after an unterminated `{{`. */
  function RestFrom(value: Bytes, i: nat): Bytes
  {
    if i <= |value| then value[i..] else []
  }

  /** The loop invariant of `TemplateScan`: `output` followed by the scan of
      the unscanned rest is the scan of the whole. */
  predicate Scanned(mode: CopyMode, vars: Vars, value: Bytes, whole: Result<Bytes, TemplateError>, output: Bytes, i: nat)
  {
    whole == Prepend(output, Expand(mode, vars, RestFrom(value, i)))
  }

  /** The invariant survives emitting `piece` and moving from `i` to `j`. */
  lemma ScanAdvance(mode: CopyMode, vars: Vars, value: Bytes, whole: Result<Bytes, TemplateError>, output: Bytes, i: nat, piece: Bytes, j: nat)
    requires Scanned(mode, vars, value, whole, output, i)
    requires Expand(mode, vars, RestFrom(value, i)) == Prepend(piece, Expand(mode, vars, RestFrom(value, j)))
    ensures Scanned(mode, vars, value, whole, output + piece, j)
  {
    PrependPrepend(output, piece, Expand(mode, vars, RestFrom(value, j)));
  }

  /** The loop body on a plain byte or a stray `{`. */
  lemma ScanByte(mode: CopyMode, vars: Vars, value: Bytes, whole: Result<Bytes, TemplateError>, output: Bytes, i: nat)
    requires i < |value| && !(value[i] == '{' && i < |value| - 1 && value[i + 1] == '{')
    requires Scanned(mode, vars, value, whole, output, i)
    ensures value[i] != '{' ==> Scanned(mode, vars, value, whole, output + Copy(mode, value[i]), i + 1)
    ensures value[i] == '{' ==> Scanned(mode, vars, value, whole, output, i + 1)
  {
    assert RestFrom(value, i) == value[i..];
    assert value[i..][1..] == RestFrom(value, i + 1);
    if value[i] == '{' {
      ExpandHeadStray(mode, vars, value[i..]);
    } else {
      ExpandHeadPlain(mode, vars, value[i..]);
      ScanAdvance(mode, vars, value, whole, output, i, Copy(mode, value[i]), i + 1);
    }
  }

  /** The invariant after a placeholder: a failure is the whole result, and
      a value is emitted with the scan resuming after the `}}`. */
  lemma ScanResolved(mode: CopyMode, vars: Vars, value: Bytes, whole: Result<Bytes, TemplateError>, output: Bytes, i: nat, next: nat, v: Result<Bytes, TemplateError>)
    requires Scanned(mode, vars, value, whole, output, i)
    requires v.Failure? ==> Expand(mode, vars, RestFrom(value, i)) == v
    requires v.Success? ==>
      Expand(mode, vars, RestFrom(value, i)) == Prepend(v.value, Expand(mode, vars, RestFrom(value, next + 1)))
    ensures v.Failure? ==> whole == v
    ensures v.Success? ==> Scanned(mode, vars, value, whole, output + v.value, next + 1)
  {
    if v.Success? {
      ScanAdvance(mode, vars, value, whole, output, i, v.value, next + 1);
    } else {
      PrependFailure(output, v);
    }
  }

  /** The loop body on `{{`: `getVariable` from just after the braces,
      then the step it makes in the invariant. */
  method ResolvePlaceholder(mode: CopyMode, vars: Vars, value: Bytes, ghost whole: Result<Bytes, TemplateError>, output: Bytes, i: nat)
    returns (next: nat, v: Result<Bytes, TemplateError>)
    requires i + 1 < |value| && value[i] == '{' && value[i + 1] == '{'
    requires Scanned(mode, vars, value, whole, output, i)
    ensures i + 2 < next + 1 <= |value| + 1
    ensures v.Failure? ==> whole == v
    ensures v.Success? ==> Scanned(mode, vars, value, whole, output + v.value, next + 1)
  {
    next, v := GetVariable(vars, value, i + 2);
    PlaceholderStep(mode, vars, value, i, next, v);
    ScanResolved(mode, vars, value, whole, output, i, next, v);
  }

  /** The invariant holds before the first byte. */
  lemma ScanStart(mode: CopyMode, vars: Vars, value: Bytes)
    ensures Scanned(mode, vars, value, Expand(mode, vars, value), [], 0)
  {
    var whole := Expand(mode, vars, value);
    assert RestFrom(value, 0) == value;
    if whole.Success? {
      assert [] + whole.value == whole.value;
    }
  }

  /** Once the index is past the end, the output is the whole result. */
  lemma ScanEnd(mode: CopyMode, vars: Vars, value: Bytes, whole: Result<Bytes, TemplateError>, output: Bytes, i: nat)
    requires |value| <= i
    requires Scanned(mode, vars, value, whole, output, i)
    ensures whole == Success(output)
  {
    assert RestFrom(value, i) == [];
    assert output + [] == output;
  }

  /** The index loop of `Template`, with `getVariable` as a nested scan and
      each plain byte copied as `mode` copies it: with `RuneConversion` it
      is the loop as written, with `Verbatim` the corrected one. Either way
      it computes what the recursive definition computes. */
  method TemplateScan(mode: CopyMode, vars: Vars, value: Bytes) returns (r: Result<Bytes, TemplateError>)
    ensures mode == RuneConversion ==> r == TemplateAsWritten(vars, value)
    ensures mode == Verbatim ==> r == Template(vars, value)
  {
    var i := 0;
    var output: Bytes := [];
    ghost var whole := Expand(mode, vars, value);
    ScanStart(mode, vars, value);
    while i < |value|
      invariant i <= |value| + 1
      invariant Scanned(mode, vars, value, whole, output, i)
      decreases |value| + 1 - i
    {
      if value[i] == '{' {
        if i < |value| - 1 && value[i + 1] == '{' {
          var next, hostVar := ResolvePlaceholder(mode, vars, value, whole, output, i);
          if hostVar.Failure? {
            return hostVar;
          }
          output := output + hostVar.value;
          i := next;
        } else {
          ScanByte(mode, vars, value, whole, output, i);
        }
      } else {
        ScanByte(mode, vars, value, whole, output, i);
        output := output + Copy(mode, value[i]);
      }
      i := i + 1;
    }
    ScanEnd(mode, vars, value, whole, output, i);
    r := Success(output);
  }
}
