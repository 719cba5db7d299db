/**
 * The names and order of the static enum constants the generator emits for
 * a signal's value choices: a name is "k" followed by every alphanumeric run
 * of the choice name, capitalised; the constants follow ascending raw value.
 */
module EnumNames {

  predicate IsAlnum(c: char)
  {
    'a' <= c <= 'z' || 'A' <= c <= 'Z' || '0' <= c <= '9'
  }

  function UpperChar(c: char): char
  {
    if 'a' <= c <= 'z' then (c as int - 32) as char else c
  }

  function LowerChar(c: char): char
  {
    if 'A' <= c <= 'Z' then (c as int + 32) as char else c
  }

  /** Python's str.lower() on ASCII letters; string signals classify their unit with it too. */
  function Lower(s: string): (r: string)
    ensures |r| == |s|
    ensures forall k :: 0 <= k < |s| ==> r[k] == LowerChar(s[k])
  {
    seq(|s|, k requires 0 <= k < |s| => LowerChar(s[k]))
  }

  /** re.split(r'[^a-zA-Z0-9]', s): the pieces between single separator characters, empty ones included. */
  function Split(s: string): (r: seq<string>)
    ensures |r| >= 1
    ensures forall i, k :: 0 <= i < |r| && 0 <= k < |r[i]| ==> IsAlnum(r[i][k])
  {
    if s == [] then [""]
    else
      var rest := Split(s[1..]);
      if !IsAlnum(s[0]) then [""] + rest
      else [[s[0]] + rest[0]] + rest[1..]
  }

  /** str.capitalize on an ASCII token: first character upper case, the rest lower case. */
  function Capitalize(t: string): string
  {
    if t == [] then [] else [UpperChar(t[0])] + Lower(t[1..])
  }

  /** "".join(token.capitalize() for token in tokens). */
  function JoinCapitalized(tokens: seq<string>): string
  {
    if tokens == [] then "" else Capitalize(tokens[0]) + JoinCapitalized(tokens[1..])
  }

  /** _format_enum_name(value). */
  function FormatEnumName(value: string): string
  {
    "k" + JoinCapitalized(Split(value))
  }

  /**
   * A one-pass reference: drop separators, upper-case an alphanumeric that
   * starts a run and lower-case one that continues a run.
   */
  function CharWise(s: string, atStart: bool): string
  {
    if s == [] then ""
    else if !IsAlnum(s[0]) then CharWise(s[1..], true)
    else [if atStart then UpperChar(s[0]) else LowerChar(s[0])] + CharWise(s[1..], false)
  }

  // ---------------------------------------------------------------------------
  // Properties.
  // ---------------------------------------------------------------------------

  lemma LowerCons(c: char, t: string)
    ensures Lower([c] + t) == [LowerChar(c)] + Lower(t)
  {
    var l, r := Lower([c] + t), [LowerChar(c)] + Lower(t);
    forall k | 0 <= k < |l| ensures l[k] == r[k] {
      if 0 < k {
        assert ([c] + t)[k] == t[k - 1];
      }
    }
  }

  lemma CapitalizeCons(c: char, t: string)
    ensures Capitalize([c] + t) == [UpperChar(c)] + Lower(t)
  {
    assert ([c] + t)[1..] == t;
  }

  /** Splitting and capitalising every token is the one-pass reference. */
  lemma {:induction false} MatchesCharWise(s: string)
    ensures JoinCapitalized(Split(s)) == CharWise(s, true)
    ensures Lower(Split(s)[0]) + JoinCapitalized(Split(s)[1..]) == CharWise(s, false)
  {
    if s != [] {
      MatchesCharWise(s[1..]);
      if !IsAlnum(s[0]) {
        SeparatorStep(s);
      } else {
        AlnumStep(s);
      }
    }
  }

  /** A separator ends the current token: the rest starts a new one. */
  lemma SeparatorStep(s: string)
    requires s != [] && !IsAlnum(s[0])
    requires JoinCapitalized(Split(s[1..])) == CharWise(s[1..], true)
    ensures JoinCapitalized(Split(s)) == CharWise(s, true)
    ensures Lower(Split(s)[0]) + JoinCapitalized(Split(s)[1..]) == CharWise(s, false)
  {
    var rest := Split(s[1..]);
    assert Split(s) == [""] + rest;
    assert Split(s)[1..] == rest;
    assert JoinCapitalized(Split(s)) == Capitalize("") + JoinCapitalized(rest);
  }

  lemma SplitAlnum(s: string)
    requires s != [] && IsAlnum(s[0])
    ensures Split(s) == [[s[0]] + Split(s[1..])[0]] + Split(s[1..])[1..]
  {
  }

  /** An alphanumeric joins the token the rest starts with. */
  lemma AlnumStep(s: string)
    requires s != [] && IsAlnum(s[0])
    requires Lower(Split(s[1..])[0]) + JoinCapitalized(Split(s[1..])[1..]) == CharWise(s[1..], false)
    ensures JoinCapitalized(Split(s)) == CharWise(s, true)
    ensures Lower(Split(s)[0]) + JoinCapitalized(Split(s)[1..]) == CharWise(s, false)
  {
    SplitAlnum(s);
    TokenStep(s[0], Split(s[1..])[0], Split(s[1..])[1..], CharWise(s[1..], false));
  }

  lemma TokenStep(c: char, t: string, others: seq<string>, after: string)
    requires Lower(t) + JoinCapitalized(others) == after
    ensures JoinCapitalized([[c] + t] + others) == [UpperChar(c)] + after
    ensures Lower(([[c] + t] + others)[0]) + JoinCapitalized(([[c] + t] + others)[1..]) == [LowerChar(c)] + after
  {
    var tokens := [[c] + t] + others;
    assert tokens[0] == [c] + t;
    assert tokens[1..] == others;
    FirstCapitalized(c, t, others, after);
    LowerCons(c, t);
    Assoc([LowerChar(c)], Lower(t), JoinCapitalized(others));
  }

  lemma FirstCapitalized(c: char, t: string, others: seq<string>, after: string)
    requires Lower(t) + JoinCapitalized(others) == after
    ensures JoinCapitalized([[c] + t] + others) == [UpperChar(c)] + after
  {
    var tokens := [[c] + t] + others;
    assert tokens[0] == [c] + t;
    assert tokens[1..] == others;
    CapitalizeCons(c, t);
    Assoc([UpperChar(c)], Lower(t), JoinCapitalized(others));
  }

  lemma Assoc(a: string, b: string, c: string)
    ensures (a + b) + c == a + (b + c)
  {
  }

  /** The reference keeps only alphanumerics and drops every separator. */
  lemma {:induction false} CharWiseShape(s: string, atStart: bool)
    ensures forall k :: 0 <= k < |CharWise(s, atStart)| ==> IsAlnum(CharWise(s, atStart)[k])
    ensures |CharWise(s, atStart)| <= |s|
  {
    if s != [] {
      CharWiseShape(s[1..], !IsAlnum(s[0]));
      CharWiseShape(s[1..], false);
    }
  }

  /** An enum name is "k" followed by letters and digits only: it matches k[A-Za-z0-9]*. */
  lemma NameShape(value: string)
    ensures |FormatEnumName(value)| >= 1 && FormatEnumName(value)[0] == 'k'
    ensures forall k :: 1 <= k < |FormatEnumName(value)| ==> IsAlnum(FormatEnumName(value)[k])
    ensures |FormatEnumName(value)| <= |value| + 1
  {
    MatchesCharWise(value);
    CharWiseShape(value, true);
  }

  /**
   * "I'm_a C0nst" becomes "kIMAC0nst": every run, even a one-letter one, starts
   * upper case (the apostrophe splits "I" from "m").
   */
  lemma Example(value: string)
    requires value == "I'm_a C0nst"
    ensures FormatEnumName(value) == "kIMAC0nst"
  {
    MatchesCharWise(value);
    CharWiseExample(value);
  }

  lemma CharWiseExample(value: string)
    requires value == "I'm_a C0nst"
    ensures CharWise(value, true) == "IMAC0nst"
  {
    CharWiseExampleMiddle(value[1..]);
  }

  lemma CharWiseExampleMiddle(middle: string)
    requires middle == "'m_a C0nst"
    ensures CharWise(middle, false) == "MAC0nst"
  {
    CharWiseExampleTail(middle[2..]);
    assert CharWise(middle[1..], true) == "MAC0nst";
  }

  lemma CharWiseExampleTail(tail: string)
    requires tail == "_a C0nst"
    ensures CharWise(tail, false) == "AC0nst"
  {
    CharWiseExampleWord(tail[3..]);
    assert CharWise(tail[2..], false) == "C0nst";
    assert CharWise(tail[1..], true) == "AC0nst";
  }

  lemma CharWiseExampleWord(word: string)
    requires word == "C0nst"
    ensures CharWise(word, true) == "C0nst"
  {
    assert CharWise("t", false) == "t";
    assert CharWise("st", false) == "st";
    assert CharWise("nst", false) == "nst";
    assert CharWise("0nst", false) == "0nst";
  }

  // ---------------------------------------------------------------------------
  // The emitted constants.
  // ---------------------------------------------------------------------------

  /** `static constexpr <int|uint> <name> = <value>;` */
  datatype Constant = Constant(typeName: string, name: string, value: int)


  /** Raw values strictly ascending. */
  predicate Ascending(items: seq<(int, string)>)
  {
    forall i, j :: 0 <= i < j < |items| ==> items[i].0 < items[j].0
  }

  /** No raw value twice, as in the keys of a dictionary. */
  predicate DistinctValues(items: seq<(int, string)>)
  {
    forall i, j :: 0 <= i < j < |items| ==> items[i].0 != items[j].0
  }

  /** An item below every value of an ascending list keeps it ascending when put in front. */
  lemma AscendingCons(h: (int, string), rest: seq<(int, string)>)
    requires Ascending(rest)
    requires forall i :: 0 <= i < |rest| ==> h.0 < rest[i].0
    ensures Ascending([h] + rest)
  {
    forall i, j | 0 <= i < j < |[h] + rest| ensures ([h] + rest)[i].0 < ([h] + rest)[j].0 {
      assert ([h] + rest)[j] == rest[j - 1];
      if 0 < i {
        assert ([h] + rest)[i] == rest[i - 1];
      }
    }
  }

  /** A bound on every item of a list and on x bounds every item of a rearrangement of both. */
  lemma BelowAll(h: (int, string), x: (int, string), tail: seq<(int, string)>, rest: seq<(int, string)>)
    requires multiset(rest) == multiset(tail) + multiset{x}
    requires h.0 < x.0
    requires forall i :: 0 <= i < |tail| ==> h.0 < tail[i].0
    ensures forall i :: 0 <= i < |rest| ==> h.0 < rest[i].0
  {
    forall i | 0 <= i < |rest| ensures h.0 < rest[i].0 {
      assert rest[i] in multiset(rest);
      if rest[i] != x {
        assert rest[i] in multiset(tail);
        var k :| 0 <= k < |tail| && tail[k] == rest[i];
      }
    }
  }

  /** The tail of an ascending list is ascending and above its head, and misses what the list misses. */
  lemma AscendingTail(items: seq<(int, string)>, v: int)
    requires items != [] && Ascending(items)
    requires forall i :: 0 <= i < |items| ==> items[i].0 != v
    ensures Ascending(items[1..])
    ensures forall i :: 0 <= i < |items[1..]| ==> items[0].0 < items[1..][i].0 && items[1..][i].0 != v
  {
    assert forall i :: 0 <= i < |items[1..]| ==> items[1..][i] == items[i + 1];
  }

  /** Insert one item into an ascending list before the first larger value. */
  function Insert(x: (int, string), items: seq<(int, string)>): (r: seq<(int, string)>)
    requires Ascending(items)
    requires forall i :: 0 <= i < |items| ==> items[i].0 != x.0
    ensures Ascending(r)
    ensures multiset(r) == multiset(items) + multiset{x}
  {
    if items == [] || x.0 < items[0].0 then
      AscendingCons(x, items);
      [x] + items
    else
      var tail := items[1..];
      AscendingTail(items, x.0);
      var rest := Insert(x, tail);
      assert items == [items[0]] + tail;
      BelowAll(items[0], x, tail, rest);
      AscendingCons(items[0], rest);
      [items[0]] + rest
  }

  /** The tail of a list with distinct values has distinct values, none of them the head's. */
  lemma DistinctTail(items: seq<(int, string)>)
    requires items != [] && DistinctValues(items)
    ensures DistinctValues(items[1..])
    ensures forall i :: 0 <= i < |items[1..]| ==> items[1..][i].0 != items[0].0
  {
    assert forall i :: 0 <= i < |items[1..]| ==> items[1..][i] == items[i + 1];
  }

  /** A value missing from a list is missing from every rearrangement of it. */
  lemma MissingFromPermutation(v: int, tail: seq<(int, string)>, rest: seq<(int, string)>)
    requires multiset(rest) == multiset(tail)
    requires forall i :: 0 <= i < |tail| ==> tail[i].0 != v
    ensures forall i :: 0 <= i < |rest| ==> rest[i].0 != v
  {
    forall i | 0 <= i < |rest| ensures rest[i].0 != v {
      assert rest[i] in multiset(tail);
      var k :| 0 <= k < |tail| && tail[k] == rest[i];
    }
  }

  /** sorted(unique_choices.items()): the same items in ascending raw value. */
  function SortByValue(items: seq<(int, string)>): (r: seq<(int, string)>)
    requires DistinctValues(items)
    ensures Ascending(r)
    ensures multiset(r) == multiset(items)
  {
    if items == [] then []
    else
      var tail := items[1..];
      DistinctTail(items);
      var rest := SortByValue(tail);
      MissingFromPermutation(items[0].0, tail, rest);
      assert items == [items[0]] + tail;
      Insert(items[0], rest)
  }

  function TypeName(isSigned: bool): string
  {
    if isSigned then "int" else "uint"
  }

  /**
   * _generate_choices: nothing for a signal without choices, otherwise one
   * constant per unique choice in ascending raw value, typed int for a signed
   * and uint for an unsigned signal.
   */
  function ChoiceConstants(uniqueChoices: seq<(int, string)>, isSigned: bool): (r: seq<Constant>)
    requires DistinctValues(uniqueChoices)
    ensures |r| == |uniqueChoices|
    ensures forall i, j :: 0 <= i < j < |r| ==> r[i].value < r[j].value
    ensures forall i :: 0 <= i < |r| ==> r[i].typeName == TypeName(isSigned)
  {
    var sorted := SortByValue(uniqueChoices);
    assert |sorted| == |multiset(sorted)| == |multiset(uniqueChoices)| == |uniqueChoices|;
    seq(|sorted|, i requires 0 <= i < |sorted| => Constant(TypeName(isSigned), FormatEnumName(sorted[i].1), sorted[i].0))
  }

  /** Each choice's raw value with its enum name. */
  function ChoiceNames(uniqueChoices: seq<(int, string)>): (r: seq<(int, string)>)
    ensures |r| == |uniqueChoices|
    ensures forall k :: 0 <= k < |r| ==> r[k].0 == uniqueChoices[k].0 && r[k].1 == FormatEnumName(uniqueChoices[k].1)
  {
    seq(|uniqueChoices|, k requires 0 <= k < |uniqueChoices| => (uniqueChoices[k].0, FormatEnumName(uniqueChoices[k].1)))
  }

  /** The value and name of each emitted constant. */
  function Emitted(constants: seq<Constant>): (r: seq<(int, string)>)
    ensures |r| == |constants|
    ensures forall i :: 0 <= i < |r| ==> r[i] == (constants[i].value, constants[i].name)
  {
    seq(|constants|, i requires 0 <= i < |constants| => (constants[i].value, constants[i].name))
  }

  /** The i-th emitted constant is the i-th choice in ascending raw value. */
  lemma EmittedAt(uniqueChoices: seq<(int, string)>, isSigned: bool, i: nat)
    requires DistinctValues(uniqueChoices) && i < |uniqueChoices|
    ensures |SortByValue(uniqueChoices)| == |uniqueChoices|
    ensures Emitted(ChoiceConstants(uniqueChoices, isSigned))[i]
         == (SortByValue(uniqueChoices)[i].0, FormatEnumName(SortByValue(uniqueChoices)[i].1))
  {
    var sorted := SortByValue(uniqueChoices);
    assert |sorted| == |multiset(sorted)| == |multiset(uniqueChoices)|;
  }

  /** The i-th emitted constant names some unique choice. */
  lemma EmittedIsChoice(uniqueChoices: seq<(int, string)>, isSigned: bool, i: nat)
    requires DistinctValues(uniqueChoices) && i < |uniqueChoices|
    ensures Emitted(ChoiceConstants(uniqueChoices, isSigned))[i] in ChoiceNames(uniqueChoices)
  {
    var sorted := SortByValue(uniqueChoices);
    EmittedAt(uniqueChoices, isSigned, i);
    assert sorted[i] in multiset(uniqueChoices);
    var k :| 0 <= k < |uniqueChoices| && uniqueChoices[k] == sorted[i];
    assert ChoiceNames(uniqueChoices)[k] == Emitted(ChoiceConstants(uniqueChoices, isSigned))[i];
  }

  /** The k-th unique choice is emitted under its enum name. */
  lemma ChoiceIsEmitted(uniqueChoices: seq<(int, string)>, isSigned: bool, k: nat)
    requires DistinctValues(uniqueChoices) && k < |uniqueChoices|
    ensures ChoiceNames(uniqueChoices)[k] in Emitted(ChoiceConstants(uniqueChoices, isSigned))
  {
    var sorted := SortByValue(uniqueChoices);
    assert uniqueChoices[k] in multiset(sorted);
    var i :| 0 <= i < |sorted| && sorted[i] == uniqueChoices[k];
    EmittedAt(uniqueChoices, isSigned, i);
    assert ChoiceNames(uniqueChoices)[k] == Emitted(ChoiceConstants(uniqueChoices, isSigned))[i];
  }

  /** Every emitted constant is a unique choice under its enum name. */
  lemma ChoiceConstantsSound(uniqueChoices: seq<(int, string)>, isSigned: bool)
    requires DistinctValues(uniqueChoices)
    ensures forall p :: p in Emitted(ChoiceConstants(uniqueChoices, isSigned)) ==> p in ChoiceNames(uniqueChoices)
  {
    var e := Emitted(ChoiceConstants(uniqueChoices, isSigned));
    forall p | p in e ensures p in ChoiceNames(uniqueChoices) {
      var i :| 0 <= i < |e| && e[i] == p;
      EmittedIsChoice(uniqueChoices, isSigned, i);
    }
  }

  /** Every unique choice is emitted under its enum name. */
  lemma ChoiceConstantsComplete(uniqueChoices: seq<(int, string)>, isSigned: bool)
    requires DistinctValues(uniqueChoices)
    ensures forall p :: p in ChoiceNames(uniqueChoices) ==> p in Emitted(ChoiceConstants(uniqueChoices, isSigned))
  {
    var names := ChoiceNames(uniqueChoices);
    forall p | p in names ensures p in Emitted(ChoiceConstants(uniqueChoices, isSigned)) {
      var k :| 0 <= k < |names| && names[k] == p;
      ChoiceIsEmitted(uniqueChoices, isSigned, k);
    }
  }
}
