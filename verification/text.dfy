/**
 * The string operations the services use: case folding (toLowerCase,
 * LOWER and ILIKE), substring search (LIKE '%s%'), trim, the split('/')
 * used on image URLs, and the decimal rendering of ids.
 */
module Text {

  /**
   * Case folding of one character: Latin A-Z, Cyrillic А-Я and Ё go to
   * lower case, everything else is left as it is.
   */
  function Lower(c: char): (r: char)
    ensures ('A' <= c <= 'Z' || 'А' <= c <= 'Я') ==> r as int == c as int + 32
    ensures c == 'Ё' ==> r == 'ё'
    ensures !('A' <= c <= 'Z') && !('А' <= c <= 'Я') && c != 'Ё' ==> r == c
  {
    if 'A' <= c <= 'Z' then (c as int + 32) as char
    else if 'А' <= c <= 'Я' then (c as int + 32) as char
    else if c == 'Ё' then 'ё'
    else c
  }

  function LowerStr(s: string): (r: string)
    ensures |r| == |s|
    ensures forall i :: 0 <= i < |s| ==> r[i] == Lower(s[i])
  {
    seq(|s|, i requires 0 <= i < |s| => Lower(s[i]))
  }

  /** `sub` occurs in `s` starting at position `i`. */
  predicate OccursAt(s: string, sub: string, i: int) {
    0 <= i <= |s| - |sub| && s[i..i + |sub|] == sub
  }

  /** `sub` occurs in `s` as a contiguous block. */
  predicate Contains(s: string, sub: string) {
    exists i | 0 <= i <= |s| :: OccursAt(s, sub, i)
  }

  /** `column ILIKE '%' || sub || '%'`, with the wildcards of `sub` taken literally. */
  predicate ContainsFolded(s: string, sub: string) {
    Contains(LowerStr(s), LowerStr(sub))
  }

  /** Folding is idempotent: a folded string folds to itself. */
  lemma LowerStrIdempotent(s: string)
    ensures LowerStr(LowerStr(s)) == LowerStr(s)
  {
    forall i | 0 <= i < |s| ensures LowerStr(LowerStr(s))[i] == LowerStr(s)[i] {
      var c := s[i];
      assert LowerStr(s)[i] == Lower(c);
    }
  }

  /**
   * ILIKE ignores case on both sides: an exact match is also a folded one,
   * and folding either the column or the search beforehand changes nothing.
   */
  lemma ContainsFoldedLaws(s: string, sub: string)
    ensures Contains(s, sub) ==> ContainsFolded(s, sub)
    ensures ContainsFolded(LowerStr(s), sub) <==> ContainsFolded(s, sub)
    ensures ContainsFolded(s, LowerStr(sub)) <==> ContainsFolded(s, sub)
  {
    LowerStrIdempotent(s);
    LowerStrIdempotent(sub);
    if Contains(s, sub) {
      var i :| 0 <= i <= |s| && OccursAt(s, sub, i);
      assert LowerStr(s)[i..i + |sub|] == LowerStr(sub) by {
        forall j | 0 <= j < |sub| ensures LowerStr(s)[i..i + |sub|][j] == LowerStr(sub)[j] {
          assert s[i..i + |sub|][j] == sub[j];
        }
      }
      assert OccursAt(LowerStr(s), LowerStr(sub), i);
    }
  }

  lemma EmptyIsContained(s: string)
    ensures Contains(s, "")
  {
    assert OccursAt(s, "", 0);
  }

  lemma ContainsItself(s: string)
    ensures Contains(s, s)
  {
    assert OccursAt(s, s, 0);
  }

  /** The message of a scaffolded service method: "This action <verb> a #<id> <entity>". */
  function ActionMessage(verb: string, id: string, entity: string): (msg: string)
    ensures OccursAt(msg, verb, 12) && OccursAt(msg, id, 16 + |verb|) && Contains(msg, id)
  {
    var msg := "This action " + verb + " a #" + id + " " + entity;
    assert msg[12..12 + |verb|] == verb;
    assert OccursAt(msg, id, 16 + |verb|);
    msg
  }

  /** The characters String.prototype.trim removes. */
  predicate IsSpace(c: char) {
    || c == ' ' || c == '\t' || c == '\n' || c == '\U{B}' || c == '\U{C}' || c == '\r'
    || c == '\U{A0}' || c == '\U{1680}' || ('\U{2000}' <= c <= '\U{200A}')
    || c == '\U{2028}' || c == '\U{2029}' || c == '\U{202F}' || c == '\U{205F}'
    || c == '\U{3000}' || c == '\U{FEFF}'
  }

  predicate AllSpace(s: string) {
    forall i :: 0 <= i < |s| ==> IsSpace(s[i])
  }

  function TrimStart(s: string): (r: string)
    ensures |r| <= |s| && r == s[|s| - |r|..]
    ensures AllSpace(s[..|s| - |r|])
    ensures r == [] || !IsSpace(r[0])
  {
    if s != [] && IsSpace(s[0]) then
      var r := TrimStart(s[1..]);
      assert s[..|s| - |r|] == [s[0]] + s[1..][..|s| - 1 - |r|];
      r
    else s
  }

  function TrimEnd(s: string): (r: string)
    ensures |r| <= |s| && r == s[..|r|]
    ensures AllSpace(s[|r|..])
    ensures r == [] || !IsSpace(r[|r| - 1])
  {
    if s != [] && IsSpace(s[|s| - 1]) then
      var r := TrimEnd(s[..|s| - 1]);
      assert s[|r|..] == s[..|s| - 1][|r|..] + [s[|s| - 1]];
      r
    else s
  }

  /**
   * String.prototype.trim: the block of `s` that neither starts nor ends
   * with whitespace and has only whitespace around it.
   */
  function Trim(s: string): (r: string)
    ensures r == [] || (!IsSpace(r[0]) && !IsSpace(r[|r| - 1]))
    ensures exists i | 0 <= i <= |s| :: OccursAt(s, r, i) && AllSpace(s[..i]) && AllSpace(s[i + |r|..])
  {
    var t := TrimStart(s);
    var r := TrimEnd(t);
    Surrounded(s, t, r);
    r
  }

  /**
   * A block `r` at the start of a suffix `t` of `s`, with whitespace before
   * `t` and after `r`, sits in `s` with only whitespace around it.
   */
  lemma Surrounded(s: string, t: string, r: string)
    requires |t| <= |s| && t == s[|s| - |t|..] && AllSpace(s[..|s| - |t|])
    requires |r| <= |t| && r == t[..|r|] && AllSpace(t[|r|..])
    requires r == [] || !IsSpace(r[|r| - 1])
    requires t == [] || !IsSpace(t[0])
    ensures r == [] || (!IsSpace(r[0]) && !IsSpace(r[|r| - 1]))
    ensures OccursAt(s, r, |s| - |t|) && AllSpace(s[..|s| - |t|]) && AllSpace(s[|s| - |t| + |r|..])
  {
    var i := |s| - |t|;
    assert s[i..i + |r|] == r;
    assert s[i + |r|..] == t[|r|..];
  }

  /** Trimming leaves nothing exactly when the string is whitespace only. */
  lemma {:induction false} TrimEmptyIff(s: string)
    ensures Trim(s) == "" <==> AllSpace(s)
  {
    var t := TrimStart(s);
    if Trim(s) == "" {
      assert t == [];
      assert s[..|s|] == s;
    } else {
      var r := Trim(s);
      assert r[0] == t[0];
      assert t[0] == s[|s| - |t|];
    }
  }

  /** Trimming never leaves a blank at either end. */
  lemma TrimEnds(s: string)
    ensures Trim(s) == "" || (!IsSpace(Trim(s)[0]) && !IsSpace(Trim(s)[|Trim(s)| - 1]))
  {
    var t := TrimStart(s);
    var r := TrimEnd(t);
    if r != "" {
      assert r[0] == t[0];
    }
  }

  /** Trimming twice is trimming once. */
  lemma TrimIdempotent(s: string)
    ensures Trim(Trim(s)) == Trim(s)
  {
    TrimEnds(s);
    var r := Trim(s);
    assert TrimStart(r) == r;
    assert TrimEnd(r) == r;
  }

  /**
   * The value `url.split('/').pop()`: the part after the last '/', or the
   * whole string when it has none.
   */
  function LastSegment(url: string): (r: string)
    ensures '/' !in r
    ensures |r| <= |url| && r == url[|url| - |r|..]
    ensures |r| < |url| ==> url[|url| - |r| - 1] == '/'
  {
    if url == [] then []
    else if url[|url| - 1] == '/' then []
    else
      var r := LastSegment(url[..|url| - 1]);
      r + [url[|url| - 1]]
  }

  /** The last segment of `dir/name` is `name`, whatever `dir` holds. */
  lemma {:induction false} LastSegmentAfterSlash(dir: string, name: string)
    requires '/' !in name
    ensures LastSegment(dir + "/" + name) == name
  {
    var s := dir + "/" + name;
    if name == [] {
      assert s == dir + "/";
    } else {
      var init := name[..|name| - 1];
      assert s[|s| - 1] == name[|name| - 1];
      assert s[..|s| - 1] == dir + "/" + init;
      LastSegmentAfterSlash(dir, init);
      assert init + [name[|name| - 1]] == name;
    }
  }

  function DigitChar(d: nat): (c: char)
    requires d < 10
    ensures '0' <= c <= '9'
  {
    ('0' as int + d) as char
  }

  predicate AllDigits(s: string) {
    forall i :: 0 <= i < |s| ==> '0' <= s[i] <= '9'
  }

  /** The number a string of decimal digits denotes. */
  function DigitsValue(s: string): nat
    requires AllDigits(s)
  {
    if s == [] then 0 else DigitsValue(s[..|s| - 1]) * 10 + (s[|s| - 1] as int - '0' as int)
  }

  /** A canonical decimal numeral: digits only, at least one, and no leading zero unless it is "0". */
  predicate IsDecimal(s: string) {
    |s| >= 1 && AllDigits(s) && (s[0] == '0' ==> |s| == 1)
  }

  /** The decimal rendering of a number, as `${n}` gives it: a canonical numeral that denotes `n`. */
  function Decimal(n: nat): (r: string)
    ensures IsDecimal(r)
    ensures DigitsValue(r) == n
  {
    if n < 10 then [DigitChar(n)]
    else
      var r := Decimal(n / 10) + [DigitChar(n % 10)];
      assert r[..|r| - 1] == Decimal(n / 10);
      r
  }

  /** Different numbers render differently. */
  lemma DecimalInjective(m: nat, n: nat)
    requires Decimal(m) == Decimal(n)
    ensures m == n
  {
  }

  /** Every canonical numeral is the rendering of the number it denotes. */
  lemma {:induction false} DecimalOfValue(s: string)
    requires IsDecimal(s)
    ensures Decimal(DigitsValue(s)) == s
  {
    if |s| > 1 {
      var init := s[..|s| - 1];
      assert init[0] == s[0];
      DecimalOfValue(init);
      assert DigitsValue(init) != 0;
      var d := s[|s| - 1] as int - '0' as int;
      var v := DigitsValue(s);
      assert v == DigitsValue(init) * 10 + d && 0 <= d < 10;
      assert v / 10 == DigitsValue(init) && v % 10 == d;
      assert s == init + [s[|s| - 1]];
    }
  }
}
