/** `substitute_variables` of `src/plan.rs`: builds a destination path from
    the destination pattern and the substrings the wildcards captured. */
module Substitution {
  import opened Types

  const Sharp: byte := 35
  const Slash: byte := 47
  const Backslash: byte := 92
  const Digit1: byte := 49
  const Digit9: byte := 57

  predicate IsVariableDigit(b: byte) { Digit1 <= b <= Digit9 }

  predicate IsSeparator(b: byte) { b == Slash || b == Backslash }

  /** Whether a `#d` variable starts at position `i`. */
  predicate VariableAt(dest: seq<byte>, i: nat)
  {
    i + 1 < |dest| && dest[i] == Sharp && IsVariableDigit(dest[i + 1])
  }

  /** What the variable `#d` becomes: the d-th substring if there is one,
      otherwise the two characters themselves. */
  function Replacement(d: byte, subs: seq<string>): string
    requires IsVariableDigit(d)
  {
    var index := (d - Digit1) as int;
    if index < |subs| then subs[index] else ['#', d as int as char]
  }

  /** The substitution, read from the front of the pattern: a variable is
      replaced, a `/` or `\` becomes `sep`, and every other byte becomes the
      character with that code. */
  function Subst(dest: seq<byte>, subs: seq<string>, sep: char): string
    decreases |dest|
  {
    if dest == [] then ""
    else if VariableAt(dest, 0) then Replacement(dest[1], subs) + Subst(dest[2..], subs, sep)
    else if IsSeparator(dest[0]) then [sep] + Subst(dest[1..], subs, sep)
    else [dest[0] as int as char] + Subst(dest[1..], subs, sep)
  }

  /** `substitute_variables`: a scan over the bytes of the pattern. */
  method SubstituteVariables(dest: seq<byte>, subs: seq<string>, sep: char) returns (substituted: string)
    ensures substituted == Subst(dest, subs, sep)
  {
    substituted := "";
    var i := 0;
    while i < |dest|
      invariant i <= |dest|
      invariant Subst(dest, subs, sep) == substituted + Subst(dest[i..], subs, sep)
    {
      if dest[i] == Sharp && i + 1 < |dest| && Digit1 <= dest[i + 1] && dest[i + 1] <= Digit9 {
        VariableStep(dest, subs, sep, i, substituted);
        var index := (dest[i + 1] - Digit1) as int;
        if index >= |subs| {
          substituted := substituted + ['#'];
          substituted := substituted + [dest[i + 1] as int as char];
          i := i + 2;
          continue;
        }
        substituted := substituted + subs[index];
        i := i + 2;
      } else if dest[i] == Backslash || dest[i] == Slash {
        ByteStep(dest, subs, sep, i, substituted, sep);
        substituted := substituted + [sep];
        i := i + 1;
      } else {
        ByteStep(dest, subs, sep, i, substituted, dest[i] as int as char);
        substituted := substituted + [dest[i] as int as char];
        i := i + 1;
      }
    }
  }

  /** The scan past a variable at position `i`. */
  lemma VariableStep(dest: seq<byte>, subs: seq<string>, sep: char, i: nat, done: string)
    requires VariableAt(dest, i)
    requires Subst(dest, subs, sep) == done + Subst(dest[i..], subs, sep)
    ensures Subst(dest, subs, sep) == done + Replacement(dest[i + 1], subs) + Subst(dest[i + 2..], subs, sep)
  {
    SubstAt(dest, subs, sep, i);
    assert done + (Replacement(dest[i + 1], subs) + Subst(dest[i + 2..], subs, sep))
        == done + Replacement(dest[i + 1], subs) + Subst(dest[i + 2..], subs, sep);
  }

  /** The scan past a byte at position `i` that does not start a variable:
      `c` is what the byte becomes. */
  lemma ByteStep(dest: seq<byte>, subs: seq<string>, sep: char, i: nat, done: string, c: char)
    requires i < |dest| && !VariableAt(dest, i)
    requires c == if IsSeparator(dest[i]) then sep else dest[i] as int as char
    requires Subst(dest, subs, sep) == done + Subst(dest[i..], subs, sep)
    ensures Subst(dest, subs, sep) == done + [c] + Subst(dest[i + 1..], subs, sep)
  {
    SubstAt(dest, subs, sep, i);
    assert done + ([c] + Subst(dest[i + 1..], subs, sep)) == done + [c] + Subst(dest[i + 1..], subs, sep);
  }

  /** One step of the scan at position `i`. */
  lemma SubstAt(dest: seq<byte>, subs: seq<string>, sep: char, i: nat)
    requires i < |dest|
    ensures VariableAt(dest, i) ==>
      Subst(dest[i..], subs, sep) == Replacement(dest[i + 1], subs) + Subst(dest[i + 2..], subs, sep)
    ensures !VariableAt(dest, i) && IsSeparator(dest[i]) ==>
      Subst(dest[i..], subs, sep) == [sep] + Subst(dest[i + 1..], subs, sep)
    ensures !VariableAt(dest, i) && !IsSeparator(dest[i]) ==>
      Subst(dest[i..], subs, sep) == [dest[i] as int as char] + Subst(dest[i + 1..], subs, sep)
  {
    assert dest[i..][1..] == dest[i + 1..];
    if i + 1 < |dest| {
      assert dest[i..][2..] == dest[i + 2..];
    }
  }

  // ---------------------------------------------------------------------
  // Properties

  /** Separators replaced, every other byte kept: what the substitution does
      to a pattern without variables. */
  function Normalized(dest: seq<byte>, sep: char): (r: string)
    ensures |r| == |dest|
    ensures forall k :: 0 <= k < |r| ==> r[k] == if IsSeparator(dest[k]) then sep else dest[k] as int as char
  {
    seq(|dest|, k requires 0 <= k < |dest| => if IsSeparator(dest[k]) then sep else dest[k] as int as char)
  }

  /** No `#` of the pattern is followed by a digit `1`..`9`. */
  predicate NoVariables(dest: seq<byte>)
  {
    forall i :: 0 <= i < |dest| ==> !VariableAt(dest, i)
  }

  /** Without variables the result is the pattern with its separators
      replaced, whatever the substrings. */
  lemma {:induction false} NoVariablesNormalized(dest: seq<byte>, subs: seq<string>, sep: char)
    requires NoVariables(dest)
    ensures Subst(dest, subs, sep) == Normalized(dest, sep)
    decreases |dest|
  {
    if dest != [] {
      assert !VariableAt(dest, 0);
      assert NoVariables(dest[1..]) by {
        forall i | 0 <= i < |dest[1..]|
          ensures !VariableAt(dest[1..], i)
        {
          assert !VariableAt(dest, i + 1);
        }
      }
      NoVariablesNormalized(dest[1..], subs, sep);
      assert Normalized(dest, sep) == Normalized(dest[..1], sep) + Normalized(dest[1..], sep);
    }
  }

  /** The substitution works piece by piece: a pattern split anywhere but
      right after a `#` is substituted as its two halves. */
  lemma {:induction false} SubstAppend(a: seq<byte>, b: seq<byte>, subs: seq<string>, sep: char)
    requires a == [] || a[|a| - 1] != Sharp
    ensures Subst(a + b, subs, sep) == Subst(a, subs, sep) + Subst(b, subs, sep)
    decreases |a|
  {
    if a == [] {
      assert a + b == b;
    } else {
      assert (a + b)[0] == a[0];
      if VariableAt(a + b, 0) {
        assert |a| >= 2 && VariableAt(a, 0);
        assert (a + b)[2..] == a[2..] + b;
        SubstAppend(a[2..], b, subs, sep);
      } else {
        assert !VariableAt(a, 0);
        assert (a + b)[1..] == a[1..] + b;
        SubstAppend(a[1..], b, subs, sep);
      }
    }
  }

  /** A variable `#1`..`#9` becomes the substring it names when there is
      one; past the end of the substrings it is kept verbatim. Only one digit
      is read, so what follows the digit is substituted on its own. */
  lemma VariableThenRest(d: byte, rest: seq<byte>, subs: seq<string>, sep: char)
    requires IsVariableDigit(d)
    ensures Subst([Sharp, d] + rest, subs, sep) ==
      (if ((d - Digit1) as int) < |subs| then subs[(d - Digit1) as int] else ['#', d as int as char]) +
      Subst(rest, subs, sep)
  {
    assert ([Sharp, d] + rest)[2..] == rest;
  }

  /** A `#` not followed by `1`..`9` (at the end, or before `0`, `:` or any
      other byte) is copied as it is. */
  lemma SharpVerbatim(rest: seq<byte>, subs: seq<string>, sep: char)
    requires rest == [] || !IsVariableDigit(rest[0])
    ensures Subst([Sharp] + rest, subs, sep) == "#" + Subst(rest, subs, sep)
  {
    assert ([Sharp] + rest)[1..] == rest;
  }

  /** `#10` is the first substring followed by `0`. */
  lemma SharpTenExample(sep: char)
    ensures Subst([Sharp, Digit1, 48], ["v1", "v2"], sep) == "v10"
  {
    VariableThenRest(Digit1, [48], ["v1", "v2"], sep);
  }

  /** Variables past the end of the substrings are kept: `#3/#1#2` with the
      single substring `v1`. */
  lemma OutOfRangeExample(sep: char)
    ensures Subst([Sharp, 51, Slash, Sharp, Digit1, Sharp, 50], ["v1"], sep) == "#3" + [sep] + "v1#2"
  {
    var subs := ["v1"];
    VariableThenRest(50, [], subs, sep);
    VariableThenRest(Digit1, [Sharp, 50], subs, sep);
    assert [Slash, Sharp, Digit1, Sharp, 50][1..] == [Sharp, Digit1] + [Sharp, 50];
    VariableThenRest(51, [Slash, Sharp, Digit1, Sharp, 50], subs, sep);
  }

  /** Text inserted from the substrings is not normalised: `#1` with the
      substring `/` stays `/` whatever the separator. */
  lemma InsertedTextKeptExample(sep: char)
    ensures Subst([Sharp, Digit1], ["/"], sep) == "/"
  {
    VariableThenRest(Digit1, [], ["/"], sep);
    assert [Sharp, Digit1] == [Sharp, Digit1] + [];
  }

  // ---------------------------------------------------------------------
  // Non-ASCII text in the pattern

  /** The two-byte UTF-8 encoding of a character from U+0080 to U+07FF. */
  function Utf8Two(c: char): (b: seq<byte>)
    requires 0x80 <= c as int < 0x800
    ensures |b| == 2 && 0xC2 <= b[0] <= 0xDF && 0x80 <= b[1] <= 0xBF
  {
    [(0xC0 + c as int / 64) as byte, (0x80 + c as int % 64) as byte]
  }

  /** As written, the scan turns each byte of a multi-byte character into a
      character of its own: `é` (bytes C3 A9) becomes `Ã©`. */
  lemma NonAsciiSplit(subs: seq<string>, sep: char)
    ensures Utf8Two(233 as char) == [0xC3, 0xA9]
    ensures Subst(Utf8Two(233 as char), subs, sep) == [0xC3 as char, 0xA9 as char]
    ensures Subst(Utf8Two(233 as char), subs, sep) != [233 as char]
  {
    var b := Utf8Two(233 as char);
    assert b[1..] == [0xA9];
    assert !VariableAt(b, 0) && !IsSeparator(b[0]);
    assert Subst(b[1..], subs, sep) == [0xA9 as char] + Subst([], subs, sep);
  }

  predicate IsVariableChar(c: char) { '1' <= c <= '9' }

  predicate IsSeparatorChar(c: char) { c == '/' || c == '\\' }

  /** Whether a `#d` variable starts at character `i`. */
  predicate VariableCharAt(dest: string, i: nat)
  {
    i + 1 < |dest| && dest[i] == '#' && IsVariableChar(dest[i + 1])
  }

  /** The substitution read over characters rather than bytes: every
      character that is neither part of a variable nor a separator is kept. */
  function SubstText(dest: string, subs: seq<string>, sep: char): string
    decreases |dest|
  {
    if dest == [] then ""
    else if VariableCharAt(dest, 0) then
      var index := (dest[1] as int) - ('1' as int);
      (if index < |subs| then subs[index] else ['#', dest[1]]) + SubstText(dest[2..], subs, sep)
    else if IsSeparatorChar(dest[0]) then [sep] + SubstText(dest[1..], subs, sep)
    else [dest[0]] + SubstText(dest[1..], subs, sep)
  }

  /** On ASCII patterns the character-level substitution is exactly the byte
      scan, so it changes nothing the repository's tests cover. */
  lemma {:induction false} SubstTextAscii(dest: string, subs: seq<string>, sep: char)
    requires forall k :: 0 <= k < |dest| ==> dest[k] as int < 128
    ensures SubstText(dest, subs, sep) == Subst(AsciiBytes(dest), subs, sep)
    decreases |dest|
  {
    var b := AsciiBytes(dest);
    if dest != [] {
      assert VariableCharAt(dest, 0) <==> VariableAt(b, 0);
      assert IsSeparatorChar(dest[0]) <==> IsSeparator(b[0]);
      if VariableCharAt(dest, 0) {
        assert AsciiBytes(dest[2..]) == b[2..];
        SubstTextAscii(dest[2..], subs, sep);
      } else {
        assert AsciiBytes(dest[1..]) == b[1..];
        SubstTextAscii(dest[1..], subs, sep);
      }
    }
  }

  /** Any character other than `#` and the separators, ASCII or not, is kept
      as it is, wherever it stands. */
  lemma TextCharKept(c: char, rest: string, subs: seq<string>, sep: char)
    requires c != '#' && !IsSeparatorChar(c)
    ensures SubstText([c] + rest, subs, sep) == [c] + SubstText(rest, subs, sep)
  {
    assert ([c] + rest)[1..] == rest;
  }

  /** A pattern without `#` gives the same destination whatever the
      substrings: every match is sent to one path. */
  lemma {:induction false} SubstTextFixed(dest: string, a: seq<string>, b: seq<string>, sep: char)
    requires forall k :: 0 <= k < |dest| ==> dest[k] != '#'
    ensures SubstText(dest, a, sep) == SubstText(dest, b, sep)
    decreases |dest|
  {
    if dest != [] {
      assert !VariableCharAt(dest, 0);
      SubstTextFixed(dest[1..], a, b, sep);
    }
  }
}
