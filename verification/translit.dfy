/** Category keys: the backend turns a Russian category name into the
    lower-case Latin key that menu rows store (`transliterate`). */
module Translit {
  import opened Basics

  /** The transliteration table covers the 66 Russian letters, lower and
      upper case. Apart from 'ё' and 'Ё', the letters of each case occupy 32
      consecutive code points, so each half is kept as a sequence in code
      point order: index 0 is 'а' (U+0430) or 'А' (U+0410). */
  const LowerSpellings: seq<string> := [
    "a", "b", "v", "g", "d", "e", "zh", "z", "i", "y", "k", "l", "m", "n", "o", "p",
    "r", "s", "t", "u", "f", "kh", "ts", "ch", "sh", "shch", "", "y", "", "e", "yu", "ya"]
  const UpperSpellings: seq<string> := [
    "A", "B", "V", "G", "D", "E", "Zh", "Z", "I", "Y", "K", "L", "M", "N", "O", "P",
    "R", "S", "T", "U", "F", "Kh", "Ts", "Ch", "Sh", "Shch", "", "Y", "", "E", "Yu", "Ya"]

  /** The table entry of a rune, if it has one. */
  function TableEntry(r: char): Option<string> {
    if 'а' <= r <= 'я' then Some(LowerSpellings[r as int - 'а' as int])
    else if 'А' <= r <= 'Я' then Some(UpperSpellings[r as int - 'А' as int])
    else if r == 'ё' then Some("e")
    else if r == 'Ё' then Some("E")
    else None
  }

  predicate IsLetters(s: string) {
    forall i :: 0 <= i < |s| ==> IsAsciiLetter(s[i])
  }

  /** Every spelling is made of ASCII letters, has at most four of them, and
      only the hard and soft signs (index 26 and 28) spell nothing. */
  lemma LowerSpellingsAreLetters(i: int)
    requires 0 <= i < 32
    ensures IsLetters(LowerSpellings[i]) && |LowerSpellings[i]| <= 4 && (LowerSpellings[i] == [] <==> i == 26 || i == 28)
  {
  }

  lemma UpperSpellingsAreLetters(i: int)
    requires 0 <= i < 32
    ensures IsLetters(UpperSpellings[i]) && |UpperSpellings[i]| <= 4 && (UpperSpellings[i] == [] <==> i == 26 || i == 28)
  {
  }

  lemma EntryIsLetters(r: char)
    ensures TableEntry(r).Some? ==>
      IsLetters(TableEntry(r).value) && |TableEntry(r).value| <= 4
      && (TableEntry(r).value == [] <==> r == 'ъ' || r == 'ь' || r == 'Ъ' || r == 'Ь')
  {
    if 'а' <= r <= 'я' {
      LowerSpellingsAreLetters(r as int - 'а' as int);
    } else if 'А' <= r <= 'Я' {
      UpperSpellingsAreLetters(r as int - 'А' as int);
    }
  }

  /** The two halves agree up to case. */
  lemma SpellingsIgnoreCase(i: int)
    requires 0 <= i < 32
    ensures Lower(UpperSpellings[i]) == LowerSpellings[i]
  {
    if i < 8 {
      SpellingsIgnoreCase0(i);
    } else if i < 16 {
      SpellingsIgnoreCase1(i);
    } else if i < 24 {
      SpellingsIgnoreCase2(i);
    } else {
      SpellingsIgnoreCase3(i);
    }
  }

  lemma SpellingsIgnoreCase0(i: int) requires 0 <= i < 8 ensures Lower(UpperSpellings[i]) == LowerSpellings[i] {}
  lemma SpellingsIgnoreCase1(i: int) requires 8 <= i < 16 ensures Lower(UpperSpellings[i]) == LowerSpellings[i] {}
  lemma SpellingsIgnoreCase2(i: int) requires 16 <= i < 24 ensures Lower(UpperSpellings[i]) == LowerSpellings[i] {}
  lemma SpellingsIgnoreCase3(i: int) requires 24 <= i < 32 ensures Lower(UpperSpellings[i]) == LowerSpellings[i] {}

  predicate IsAsciiLetter(c: char) {
    ('a' <= c <= 'z') || ('A' <= c <= 'Z')
  }

  predicate IsAsciiDigit(c: char) {
    '0' <= c <= '9'
  }

  /** The characters a category key is made of. */
  predicate IsKeyChar(c: char) {
    ('a' <= c <= 'z') || IsAsciiDigit(c) || c == '_'
  }

  predicate IsKey(s: string) {
    forall i :: 0 <= i < |s| ==> IsKeyChar(s[i])
  }

  /** The characters the per-rune loop can emit before the final rewrite. */
  predicate IsRawChar(c: char) {
    IsAsciiLetter(c) || IsAsciiDigit(c) || c == ' ' || c == '_'
  }

  predicate IsRaw(s: string) {
    forall i :: 0 <= i < |s| ==> IsRawChar(s[i])
  }

  /** What the loop writes for one rune: its table entry, the rune itself
      when it is an ASCII letter, digit or space, and '_' otherwise. */
  function RuneOut(r: char): (out: string)
    ensures IsRaw(out)
    ensures out == [] <==> r in {'ъ', 'ь', 'Ъ', 'Ь'}
    ensures |out| <= 4
  {
    EntryIsLetters(r);
    match TableEntry(r)
    case Some(t) => t
    case None =>
      if IsAsciiLetter(r) || IsAsciiDigit(r) || r == ' ' then [r] else "_"
  }

  /** The string the builder holds after the loop. */
  function Build(text: string): (out: string)
    ensures IsRaw(out)
    ensures |out| <= 4 * |text|
    decreases |text|
  {
    if |text| == 0 then "" else RuneOut(text[0]) + Build(text[1..])
  }

  /** `strings.ReplaceAll(s, " ", "_")`. */
  function SpacesToUnderscores(s: string): (r: string)
    ensures |r| == |s|
    ensures forall i :: 0 <= i < |s| ==> r[i] == if s[i] == ' ' then '_' else s[i]
  {
    seq(|s|, i requires 0 <= i < |s| => if s[i] == ' ' then '_' else s[i])
  }

  /** `transliterate(text)`: the lower-cased builder output with spaces
      turned into underscores. */
  function Transliterate(text: string): (key: string)
    ensures IsKey(key)
    ensures ' ' !in key
    ensures |key| <= 4 * |text|
  {
    var raw := Build(text);
    var r := Lower(SpacesToUnderscores(raw));
    assert forall i :: 0 <= i < |r| ==> IsKeyChar(r[i]) by {
      forall i | 0 <= i < |r| ensures IsKeyChar(r[i]) {
        assert IsRawChar(raw[i]);
      }
    }
    r
  }

  lemma SpacesConcat(a: string, b: string)
    ensures SpacesToUnderscores(a + b) == SpacesToUnderscores(a) + SpacesToUnderscores(b)
  {
    assert SpacesToUnderscores(a + b) == SpacesToUnderscores(a) + SpacesToUnderscores(b);
  }

  lemma {:induction false} BuildConcat(a: string, b: string)
    ensures Build(a + b) == Build(a) + Build(b)
    decreases |a|
  {
    if |a| > 0 {
      assert (a + b)[0] == a[0];
      assert (a + b)[1..] == a[1..] + b;
      BuildConcat(a[1..], b);
    } else {
      assert a + b == b;
    }
  }

  /** The key of a concatenation is the concatenation of the keys. */
  lemma TransliterateConcat(a: string, b: string)
    ensures Transliterate(a + b) == Transliterate(a) + Transliterate(b)
  {
    BuildConcat(a, b);
    SpacesConcat(Build(a), Build(b));
    LowerConcat(SpacesToUnderscores(Build(a)), SpacesToUnderscores(Build(b)));
  }

  /** A single rune's contribution to the key. */
  lemma TransliterateRune(r: char)
    ensures Transliterate([r]) == Lower(SpacesToUnderscores(RuneOut(r)))
  {
    assert [r][1..] == [];
    assert Build([r]) == RuneOut(r) + Build([]);
  }

  /** Every space in the input becomes an underscore in the key. */
  lemma SpaceBecomesUnderscore(a: string, b: string)
    ensures Transliterate(a + " " + b) == Transliterate(a) + "_" + Transliterate(b)
  {
    TransliterateConcat(a + " ", b);
    TransliterateConcat(a, " ");
    TransliterateRune(' ');
    assert RuneOut(' ') == " " && SpacesToUnderscores(" ") == "_" && Lower("_") == "_";
    assert Transliterate(" ") == "_";
  }

  /** Only 'ъ', 'ь', 'Ъ' and 'Ь' vanish; every other rune gives 1 to 4 characters. */
  lemma RuneContribution(r: char)
    ensures r in {'ъ', 'ь', 'Ъ', 'Ь'} ==> Transliterate([r]) == []
    ensures r !in {'ъ', 'ь', 'Ъ', 'Ь'} ==> 1 <= |Transliterate([r])| <= 4
  {
    TransliterateRune(r);
  }

  lemma KeyCharFixed(c: char)
    requires IsKeyChar(c)
    ensures Transliterate([c]) == [c]
  {
    TransliterateRune(c);
    assert TableEntry(c) == None;
  }

  /** A key transliterates to itself. */
  lemma {:induction false} KeyIsFixedPoint(k: string)
    requires IsKey(k)
    ensures Transliterate(k) == k
    decreases |k|
  {
    if |k| > 0 {
      assert k == [k[0]] + k[1..];
      TransliterateConcat([k[0]], k[1..]);
      KeyCharFixed(k[0]);
      KeyIsFixedPoint(k[1..]);
    } else {
      assert Build(k) == [];
    }
  }

  /** Transliterating a key again changes nothing. */
  lemma TransliterateIdempotent(text: string)
    ensures Transliterate(Transliterate(text)) == Transliterate(text)
  {
    KeyIsFixedPoint(Transliterate(text));
  }

  /** The entry of an upper-case letter, lower-cased, is the entry of its
      lower-case form. */
  ghost predicate EntryIgnoresCase(r: char) {
    TableEntry(r).Some? && TableEntry(LowerChar(r)).Some?
    && Lower(TableEntry(r).value) == TableEntry(LowerChar(r)).value
  }

  lemma TableIgnoresCase(r: char)
    requires 'А' <= r <= 'Я' || r == 'Ё'
    ensures EntryIgnoresCase(r)
  {
    if r == 'Ё' {
      assert LowerChar(r) == 'ё';
      assert Lower("E") == "e";
    } else {
      var i := r as int - 'А' as int;
      assert LowerChar(r) as int - 'а' as int == i;
      SpellingsIgnoreCase(i);
    }
  }

  /** The key text one rune contributes. */
  function RuneKey(r: char): string {
    Lower(SpacesToUnderscores(RuneOut(r)))
  }

  lemma UpperCyrillicSameKey(r: char)
    requires 'А' <= r <= 'Я' || r == 'Ё'
    ensures RuneKey(r) == RuneKey(LowerChar(r))
  {
    TableIgnoresCase(r);
    EntryIsLetters(r);
    var up := TableEntry(r).value;
    assert RuneOut(r) == up;
    assert RuneOut(LowerChar(r)) == Lower(up);
    LettersKey(up);
    LettersKey(Lower(up));
  }

  /** Letters have no spaces to rewrite, and lower-casing them twice is
      lower-casing them once. */
  lemma LettersKey(s: string)
    requires IsLetters(s)
    ensures SpacesToUnderscores(s) == s
    ensures IsLetters(Lower(s)) && Lower(Lower(s)) == Lower(s)
  {
  }

  lemma OtherCyrillicSameKey(r: char)
    requires 'Ѐ' <= r <= 'Џ' && r != 'Ё'
    ensures RuneKey(r) == RuneKey(LowerChar(r))
  {
    var l := LowerChar(r);
    assert l as int == r as int + 80;
    assert 'ѐ' <= l <= 'џ' && l != 'ё';
    assert TableEntry(r) == None;
    assert TableEntry(l) == None;
    assert RuneOut(r) == "_" == RuneOut(l);
  }

  lemma AsciiUpperSameKey(r: char)
    requires 'A' <= r <= 'Z'
    ensures RuneKey(r) == RuneKey(LowerChar(r))
  {
    var l := LowerChar(r);
    assert 'a' <= l <= 'z';
    assert TableEntry(r) == None && RuneOut(r) == [r];
    assert TableEntry(l) == None && RuneOut(l) == [l];
    assert SpacesToUnderscores([r]) == [r] && SpacesToUnderscores([l]) == [l];
    assert Lower([r]) == [l] && Lower([l]) == [l];
  }

  /** Upper- and lower-case forms of a letter give the same key. */
  lemma LowerCaseRuneSameKey(r: char)
    ensures Transliterate([r]) == Transliterate([LowerChar(r)])
  {
    TransliterateRune(r);
    TransliterateRune(LowerChar(r));
    if 'А' <= r <= 'Я' || r == 'Ё' {
      UpperCyrillicSameKey(r);
    } else if 'Ѐ' <= r <= 'Џ' {
      OtherCyrillicSameKey(r);
    } else if 'A' <= r <= 'Z' {
      AsciiUpperSameKey(r);
    } else {
      assert LowerChar(r) == r;
    }
  }

  /** The key does not depend on the case of the name. */
  lemma {:induction false} TransliterateIgnoresCase(text: string)
    ensures Transliterate(Lower(text)) == Transliterate(text)
    decreases |text|
  {
    if |text| > 0 {
      var c, rest := text[0], text[1..];
      calc {
        Transliterate(Lower(text));
        { assert Lower(text) == [LowerChar(c)] + Lower(rest); }
        Transliterate([LowerChar(c)] + Lower(rest));
        { TransliterateConcat([LowerChar(c)], Lower(rest)); }
        Transliterate([LowerChar(c)]) + Transliterate(Lower(rest));
        { LowerCaseRuneSameKey(c); TransliterateIgnoresCase(rest); }
        Transliterate([c]) + Transliterate(rest);
        { TransliterateConcat([c], rest); }
        Transliterate([c] + rest);
        { assert [c] + rest == text; }
        Transliterate(text);
      }
    } else {
      assert Lower(text) == text;
    }
  }
}
