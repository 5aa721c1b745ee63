/**
  Names of generated EIP-712 types (ethereum/eip712/types.go): prefixes,
  sanitising and duplicate indices.
*/
module TypeNames {
  import opened Decimal

  const ROOT_PREFIX := "_"
  const TYPE_PREFIX := "Type"

  /** strings.Split for a one-character separator: never empty. */
  function Split(s: string, sep: char): (parts: seq<string>)
    ensures parts != []
  {
    if s == "" then [""]
    else
      var rest := Split(s[1..], sep);
      if s[0] == sep then [""] + rest
      else [[s[0]] + rest[0]] + rest[1..]
  }

  /** Parts never hold the separator, nor any character the string does not. */
  lemma {:induction false} SplitCharacters(s: string, sep: char, i: nat, c: char)
    requires i < |Split(s, sep)| && c in Split(s, sep)[i]
    ensures c != sep && c in s
  {
    if s != "" {
      var rest := Split(s[1..], sep);
      if s[0] == sep {
        SplitCharacters(s[1..], sep, i - 1, c);
      } else if i > 0 || c in rest[0] {
        SplitCharacters(s[1..], sep, i, c);
      }
    }
  }

  lemma {:induction false} SplitWithoutSeparator(s: string, sep: char)
    requires sep !in s
    ensures Split(s, sep) == [s]
  {
    if s != "" {
      assert s == [s[0]] + s[1..];
      SplitWithoutSeparator(s[1..], sep);
    }
  }

  lemma {:induction false} SplitSingle(s: string, sep: char)
    requires |Split(s, sep)| == 1
    ensures Split(s, sep) == [s]
  {
    if s != "" {
      SplitSingle(s[1..], sep);
      assert s == [s[0]] + s[1..];
    }
  }

  lemma {:induction false} SplitCharactersAll(s: string, sep: char)
    requires Split(s, sep) == [s]
    ensures sep !in s
  {
    if sep in s {
      SplitCharacters(s, sep, 0, sep);
    }
  }

  /** Splitting a joined string splits both sides. */
  lemma {:induction false} SplitJoined(a: string, sep: char, b: string)
    ensures Split(a + [sep] + b, sep) == Split(a, sep) + Split(b, sep)
  {
    var s := a + [sep] + b;
    if a == "" {
      assert s[1..] == b;
    } else {
      assert s[1..] == a[1..] + [sep] + b;
      SplitJoined(a[1..], sep, b);
    }
  }

  /** The title caser, on a first ASCII letter. */
  function Title(s: string): string {
    if s != "" && 'a' <= s[0] <= 'z' then [s[0] - 'a' + 'A'] + s[1..] else s
  }

  function TitleAll(parts: seq<string>): string {
    if parts == [] then "" else Title(parts[0]) + TitleAll(parts[1..])
  }

  function SanitizePart(part: string): string {
    if part == ROOT_PREFIX then TYPE_PREFIX else TitleAll(Split(part, '_'))
  }

  function SanitizeParts(parts: seq<string>): string {
    if parts == [] then "" else SanitizePart(parts[0]) + SanitizeParts(parts[1..])
  }

  /** sanitizeTypedef as a function: _.foo_bar.baz becomes TypeFooBarBaz. */
  function Sanitize(s: string): string {
    SanitizeParts(Split(s, '.'))
  }

  lemma {:induction false} Associate(a: string, b: string, c: string)
    ensures (a + b) + c == a + (b + c)
  {
  }

  /** The inner loop of sanitizeTypedef: one dot-separated part. */
  method WriteSubparts(part: string) returns (buf: string)
    ensures buf == TitleAll(Split(part, '_'))
  {
    buf := "";
    var subparts := Split(part, '_');
    for j := 0 to |subparts|
      invariant buf + TitleAll(subparts[j..]) == TitleAll(subparts)
    {
      assert subparts[j..][0] == subparts[j] && subparts[j..][1..] == subparts[j + 1..];
      Associate(buf, Title(subparts[j]), TitleAll(subparts[j + 1..]));
      buf := buf + Title(subparts[j]);
    }
  }

  /** sanitizeTypedef: the buffer is filled part by part. */
  method SanitizeTypedef(s: string) returns (buf: string)
    ensures buf == Sanitize(s)
  {
    buf := "";
    var parts := Split(s, '.');
    for i := 0 to |parts|
      invariant buf + SanitizeParts(parts[i..]) == SanitizeParts(parts)
    {
      assert parts[i..][0] == parts[i] && parts[i..][1..] == parts[i + 1..];
      Associate(buf, SanitizePart(parts[i]), SanitizeParts(parts[i + 1..]));
      if parts[i] == ROOT_PREFIX {
        buf := buf + TYPE_PREFIX;
        continue;
      }
      var words := WriteSubparts(parts[i]);
      buf := buf + words;
    }
  }

  lemma {:induction false} TitleAllConcat(a: seq<string>, b: seq<string>)
    ensures TitleAll(a + b) == TitleAll(a) + TitleAll(b)
  {
    if a == [] {
      assert a + b == b;
    } else {
      assert (a + b)[1..] == a[1..] + b;
      TitleAllConcat(a[1..], b);
      Associate(Title(a[0]), TitleAll(a[1..]), TitleAll(b));
    }
  }

  lemma {:induction false} SanitizePartsConcat(a: seq<string>, b: seq<string>)
    ensures SanitizeParts(a + b) == SanitizeParts(a) + SanitizeParts(b)
  {
    if a == [] {
      assert a + b == b;
    } else {
      assert (a + b)[1..] == a[1..] + b;
      SanitizePartsConcat(a[1..], b);
      Associate(SanitizePart(a[0]), SanitizeParts(a[1..]), SanitizeParts(b));
    }
  }

  /** Dots join independently sanitised names. */
  lemma {:induction false} SanitizeDotted(a: string, b: string)
    ensures Sanitize(a + "." + b) == Sanitize(a) + Sanitize(b)
  {
    SplitJoined(a, '.', b);
    SanitizePartsConcat(Split(a, '.'), Split(b, '.'));
  }

  /** Below the dots, underscores join independently capitalised words, except that a lone one is the root. */
  lemma {:induction false} SanitizeWords(a: string, b: string)
    requires '.' !in a && '.' !in b && (a != "" || b != "")
    ensures Sanitize(a + "_" + b) == TitleAll(Split(a, '_')) + TitleAll(Split(b, '_'))
  {
    var s := a + "_" + b;
    assert |s| > 1;
    SplitWithoutSeparator(s, '.');
    SplitJoined(a, '_', b);
    TitleAllConcat(Split(a, '_'), Split(b, '_'));
    assert SanitizeParts([s]) == SanitizePart(s) + SanitizeParts([]);
  }

  /** A plain word is only capitalised, and the root prefix becomes the type prefix. */
  lemma {:induction false} SanitizeWord(w: string)
    requires Plain(w)
    ensures Sanitize(w) == Title(w) == TitleAll(Split(w, '_'))
    ensures |Sanitize(w)| == |w| && forall i :: 0 < i < |w| ==> Sanitize(w)[i] == w[i]
    ensures w != "" ==> Sanitize(w)[0] as int == w[0] as int - (if 97 <= w[0] as int <= 122 then 32 else 0)
    ensures Sanitize("_") == "Type"
  {
    SplitWithoutSeparator(w, '.');
    SplitWithoutSeparator(w, '_');
    SplitWithoutSeparator(ROOT_PREFIX, '.');
    assert SanitizeParts([w]) == SanitizePart(w) + SanitizeParts([]);
    assert TitleAll([w]) == Title(w) + TitleAll([]);
    assert SanitizeParts([ROOT_PREFIX]) == SanitizePart(ROOT_PREFIX) + SanitizeParts([]);
  }

  /** Free of the separators sanitising looks for. */
  predicate Plain(s: string) {
    '.' !in s && '_' !in s
  }

  lemma {:induction false} TitleAllPlain(parts: seq<string>)
    requires forall i :: 0 <= i < |parts| ==> Plain(parts[i])
    ensures Plain(TitleAll(parts))
  {
    if parts != [] {
      TitleAllPlain(parts[1..]);
      assert forall c :: c in Title(parts[0]) ==> c in parts[0] || 'A' <= c <= 'Z';
    }
  }

  lemma {:induction false} SanitizePartsPlain(parts: seq<string>)
    requires forall i :: 0 <= i < |parts| ==> '.' !in parts[i]
    ensures Plain(SanitizeParts(parts))
  {
    if parts != [] {
      SanitizePartsPlain(parts[1..]);
      var subparts := Split(parts[0], '_');
      forall i | 0 <= i < |subparts| ensures Plain(subparts[i]) {
        forall c | c in subparts[i] ensures c != '_' && c != '.' { SplitCharacters(parts[0], '_', i, c); }
      }
      TitleAllPlain(subparts);
    }
  }

  /** Prefixes are the root or grow from it by dots. */
  predicate IsPrefix(prefix: string) {
    prefix == ROOT_PREFIX || (|prefix| >= 2 && prefix[..2] == "_.")
  }

  function PrefixForSubField(prefix: string, field: string): (r: string)
    requires IsPrefix(prefix)
    ensures IsPrefix(r) && r != ROOT_PREFIX
  {
    prefix + "." + field
  }

  function TypeDefForPrefix(prefix: string, rootType: string): string {
    if prefix == ROOT_PREFIX then rootType else Sanitize(prefix)
  }

  function TypeDefWithIndex(typeDef: string, index: nat): string {
    typeDef + Numeral(index)
  }

  /** Generated keys end in a digit, which keeps them apart from the built-in types. */
  predicate IsGenerated(key: string) {
    key != "" && IsDigit(key[|key| - 1])
  }

  lemma {:induction false} SanitizedShape(prefix: string)
    requires IsPrefix(prefix) && prefix != ROOT_PREFIX
    ensures Plain(Sanitize(prefix))
    ensures |Sanitize(prefix)| > 0 && Sanitize(prefix)[0] == 'T'
  {
    var parts := Split(prefix, '.');
    assert prefix[0] == prefix[..2][0] == '_' && prefix[1] == prefix[..2][1] == '.';
    assert prefix[1..][0] == '.';
    assert Split(prefix[1..], '.')[0] == "";
    assert parts[0] == ['_'] + "";
    forall i, c | 0 <= i < |parts| && c in parts[i] ensures c != '.' {
      SplitCharacters(prefix, '.', i, c);
    }
    SanitizePartsPlain(parts);
  }

  /** Names are sanitised a second time when a parent refers to them; that changes nothing. */
  lemma {:induction false} SanitizeIdempotentOnKeys(prefix: string, index: nat)
    requires IsPrefix(prefix) && prefix != ROOT_PREFIX
    ensures var key := TypeDefWithIndex(Sanitize(prefix), index); Sanitize(key) == key
  {
    SanitizedShape(prefix);
    var key := TypeDefWithIndex(Sanitize(prefix), index);
    assert Plain(key) by {
      assert forall c :: c in Numeral(index) ==> IsDigit(c);
    }
    assert key[0] == 'T';
    SplitWithoutSeparator(key, '.');
    SplitWithoutSeparator(key, '_');
    assert SanitizePart(key) == TitleAll([key]) == Title(key) + TitleAll([]);
    assert SanitizeParts([key]) == SanitizePart(key) + SanitizeParts([]);
  }
}
