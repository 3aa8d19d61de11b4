/** The two helpers of `arithgen/quiz.py` with logic of their own: the strict
    parser of answers and the recursive merge of configuration
    dictionaries. */
module Quiz {
  import opened Wrappers
  import opened Arith
  import opened Rational
  import opened Decimal

  // ---------------------------------------------------------------------
  // parse_fraction_strict

  /** Matches `[1-9][0-9]*`: digits without a leading zero. */
  predicate PositiveNumeral(s: string)
  {
    |s| >= 1 && '1' <= s[0] <= '9' && AllDigits(s)
  }

  /** The first position of `c` in `s`. */
  function Find(s: string, c: char): (r: Option<nat>)
    ensures r.Some? ==> r.value < |s| && s[r.value] == c && forall i :: 0 <= i < r.value ==> s[i] != c
    ensures r.None? ==> forall i :: 0 <= i < |s| ==> s[i] != c
  {
    if s == [] then None
    else if s[0] == c then Some(0)
    else match Find(s[1..], c)
      case None => None
      case Some(k) => Some(k + 1)
  }

  /** `parse_fraction_strict`: accept `0`, a numeral without leading zero,
      or `a/b` of two such numerals when `gcd(a, b) == 1` and `b > 1`;
      reject anything else with a format error. */
  function ParseFractionStrict(s: string): (r: Result<Fraction>)
    ensures r.Ok? ==> r.value.Valid() && r.value.num >= 0
    ensures r.Err? ==> r.message == "Format error"
  {
    if s == "0" then
      Ok(FromInt(0))
    else if PositiveNumeral(s) then
      Ok(FromInt(DigitsValue(s)))
    else
      match Find(s, '/')
      case None => Err("Format error")
      case Some(k) =>
        if PositiveNumeral(s[..k]) && PositiveNumeral(s[k + 1..]) then
          var left, right := DigitsValue(s[..k]), DigitsValue(s[k + 1..]);
          if Gcd(left, right) == 1 && right > 1 then Ok(Fraction(left, right))
          else Err("Format error")
        else
          Err("Format error")
  }

  /** The answers the strict parser is meant to accept, stated without a
      search for the slash: `0`, a numeral, or a fraction in lowest terms
      whose denominator is above 1. */
  ghost predicate StrictAnswer(s: string)
  {
    s == "0" || PositiveNumeral(s) ||
    exists k :: 0 <= k < |s| && s[k] == '/' && PositiveNumeral(s[..k]) && PositiveNumeral(s[k + 1..]) &&
      Gcd(DigitsValue(s[..k]), DigitsValue(s[k + 1..])) == 1 && DigitsValue(s[k + 1..]) > 1
  }

  /** `str(Fraction)`: the numerator, then `/` and the denominator unless it
      is 1. */
  function FractionToString(f: Fraction): string
    requires f.num >= 0 && f.den >= 1
  {
    if f.den == 1 then NatToString(f.num)
    else NatToString(f.num) + "/" + NatToString(f.den)
  }

  lemma NumeralIsCanonical(s: string)
    ensures PositiveNumeral(s) <==> IsCanonical(s) && s != "0"
  {
  }

  /** The parser accepts exactly the strict answers. */
  lemma ParseAcceptsStrictAnswers(s: string)
    ensures ParseFractionStrict(s).Ok? <==> StrictAnswer(s)
  {
    if ParseFractionStrict(s).Err? && StrictAnswer(s) && s != "0" && !PositiveNumeral(s) {
      var k :| 0 <= k < |s| && s[k] == '/' && PositiveNumeral(s[..k]) && PositiveNumeral(s[k + 1..]) &&
        Gcd(DigitsValue(s[..k]), DigitsValue(s[k + 1..])) == 1 && DigitsValue(s[k + 1..]) > 1;
      SlashIsFirst(s, k);
    }
  }

  /** A slash after a numeral is the first slash. */
  lemma SlashIsFirst(s: string, k: int)
    requires 0 <= k < |s| && s[k] == '/' && PositiveNumeral(s[..k])
    ensures Find(s, '/') == Some(k)
  {
    var r := Find(s, '/');
    assert forall i :: 0 <= i < k ==> s[i] == s[..k][i];
    assert r.Some? && !(r.value < k) && !(r.value > k);
  }

  /** Printing an accepted answer's value gives back the answer. */
  lemma PrintParsed(s: string)
    requires ParseFractionStrict(s).Ok?
    ensures FractionToString(ParseFractionStrict(s).value) == s
  {
    if s == "0" {
    } else if PositiveNumeral(s) {
      NatToStringOfDigitsValue(s);
    } else {
      var k := Find(s, '/').value;
      NatToStringOfDigitsValue(s[..k]);
      NatToStringOfDigitsValue(s[k + 1..]);
      assert s == s[..k] + "/" + s[k + 1..];
    }
  }

  /** Every non-negative fraction in lowest terms is accepted in its
      printed form, and parses back to itself. */
  lemma ParsePrinted(f: Fraction)
    requires f.Valid() && f.num >= 0
    ensures ParseFractionStrict(FractionToString(f)) == Ok(f)
  {
    if f.den == 1 {
      ParsePrintedWhole(f);
    } else {
      ParsePrintedProper(f);
    }
  }

  lemma ParsePrintedWhole(f: Fraction)
    requires f.Valid() && f.num >= 0 && f.den == 1
    ensures ParseFractionStrict(FractionToString(f)) == Ok(f)
  {
    var a := NatToString(f.num);
    DigitsValueOfNatToString(f.num);
    if f.num != 0 {
      assert a != "0";
      ParseNumeral(a);
    }
  }

  lemma ParsePrintedProper(f: Fraction)
    requires f.Valid() && f.num >= 0 && f.den > 1
    ensures ParseFractionStrict(FractionToString(f)) == Ok(f)
  {
    var a, b := NatToString(f.num), NatToString(f.den);
    ProperNumerator(f);
    PositiveText(f.num);
    PositiveText(f.den);
    ParseSplit(a, b);
  }

  lemma ProperNumerator(f: Fraction)
    requires f.Valid() && f.den > 1
    ensures f.num != 0
  {
    assert Gcd(0, f.den) == f.den;
  }

  /** The text of a positive number is a numeral with that value. */
  lemma PositiveText(n: nat)
    requires n >= 1
    ensures PositiveNumeral(NatToString(n)) && DigitsValue(NatToString(n)) == n
  {
    DigitsValueOfNatToString(n);
    assert DigitsValue("0") == 0;
  }

  /** A numeral parses to its value. */
  lemma ParseNumeral(s: string)
    requires PositiveNumeral(s)
    ensures ParseFractionStrict(s) == Ok(FromInt(DigitsValue(s)))
  {
  }

  /** Two numerals around a slash parse as a fraction when it is in lowest
      terms with a denominator above 1, and are rejected otherwise. */
  lemma ParseSplit(a: string, b: string)
    requires PositiveNumeral(a) && PositiveNumeral(b)
    ensures ParseFractionStrict(a + "/" + b) ==
      if Gcd(DigitsValue(a), DigitsValue(b)) == 1 && DigitsValue(b) > 1
      then Ok(Fraction(DigitsValue(a), DigitsValue(b)))
      else Err("Format error")
  {
    var s := a + "/" + b;
    assert s[..|a|] == a && s[|a| + 1..] == b && s[|a|] == '/';
    SlashIsFirst(s, |a|);
    assert !PositiveNumeral(s) by {
      assert !IsDigit(s[|a|]);
    }
  }

  /** Accepted answers are never negative, and distinct accepted strings
      have distinct values. */
  lemma ParseInjective(s: string, t: string)
    requires ParseFractionStrict(s).Ok? && ParseFractionStrict(t).Ok?
    requires ParseFractionStrict(s).value.Value() == ParseFractionStrict(t).value.Value()
    ensures s == t
  {
    ValueInjective(ParseFractionStrict(s).value, ParseFractionStrict(t).value);
    PrintParsed(s);
    PrintParsed(t);
  }

  /** The accepted cases of `test_parse_fraction_strict`. */
  lemma ParseExamples()
    ensures ParseFractionStrict("0") == Ok(Fraction(0, 1))
    ensures ParseFractionStrict("12") == Ok(Fraction(12, 1))
  {
    assert DigitsValue("12") == 12 by {
      assert "12"[..1] == "1";
    }
    ParseNumeral("12");
  }

  lemma ParseFractionExample()
    ensures ParseFractionStrict("2/13") == Ok(Fraction(2, 13))
  {
    ExampleFractionParts();
    ParseSplit("2", "13");
    assert "2" + "/" + "13" == "2/13";
  }

  /** The two numerals of `2/13`, their values and their Gcd. */
  lemma ExampleFractionParts()
    ensures PositiveNumeral("2") && DigitsValue("2") == 2
    ensures PositiveNumeral("13") && DigitsValue("13") == 13
    ensures Gcd(2, 13) == 1
  {
    assert "13"[..1] == "1";
  }

  /** The rejected numerals of `test_parse_fraction_strict`. */
  lemma ParseRejectsNumerals()
    ensures ParseFractionStrict("-1").Err? && ParseFractionStrict("0123").Err?
    ensures ParseFractionStrict("0x123").Err? && ParseFractionStrict("0001").Err?
  {
    assert Find("-1", '/').None?;
    assert Find("0123", '/').None?;
    assert Find("0x123", '/').None?;
    assert Find("0001", '/').None?;
  }

  /** The rejected fractions of `test_parse_fraction_strict` with a sign,
      a zero numerator or a zero denominator. */
  lemma ParseRejectsFractions()
    ensures ParseFractionStrict("-1/123").Err? && ParseFractionStrict("0/123").Err?
    ensures ParseFractionStrict("1/0").Err?
  {
    RejectsBadNumerator("-1/123", 2);
    RejectsBadNumerator("0/123", 1);
    RejectsBadDenominator("1/0", 1);
    RejectsReducible();
  }

  /** The rejected fractions of `test_parse_fraction_strict` that are
      well formed but not in lowest terms, or have a denominator of 1. */
  lemma RejectsReducible()
    ensures ParseFractionStrict("4/6").Err? && ParseFractionStrict("5/1").Err?
  {
    RejectsNotLowest();
    RejectsUnitDenominator();
  }

  lemma RejectsNotLowest()
    ensures ParseFractionStrict("4/6").Err?
  {
    assert Gcd(4, 6) == 2;
    ParseSplit("4", "6");
    assert "4" + "/" + "6" == "4/6";
  }

  lemma RejectsUnitDenominator()
    ensures ParseFractionStrict("5/1").Err?
  {
    ParseSplit("5", "1");
    assert "5" + "/" + "1" == "5/1";
  }

  lemma RejectsBadNumerator(s: string, k: int)
    requires 0 <= k < |s| && s[k] == '/' && forall i :: 0 <= i < k ==> s[i] != '/'
    requires !IsDigit(s[0]) || s[0] == '0'
    ensures ParseFractionStrict(s).Err?
  {
    SlashPosition(s, k);
    assert s[..k] == [] || s[..k][0] == s[0];
  }

  lemma RejectsBadDenominator(s: string, k: int)
    requires 0 <= k < |s| - 1 && s[k] == '/' && forall i :: 0 <= i < k ==> s[i] != '/'
    requires s[k + 1] == '0'
    ensures ParseFractionStrict(s).Err?
  {
    SlashPosition(s, k);
    assert s[k + 1..][0] == '0';
  }

  lemma SlashPosition(s: string, k: int)
    requires 0 <= k < |s| && s[k] == '/' && forall i :: 0 <= i < k ==> s[i] != '/'
    ensures Find(s, '/') == Some(k)
  {
    var r := Find(s, '/');
    assert r.Some? && !(r.value < k) && !(r.value > k);
  }

  // ---------------------------------------------------------------------
  // update_recursive

  /** A configuration value: a non-mapping value, or a mapping whose
      entries keep Python's insertion order. */
  datatype V = Scalar(text: string) | Dict(items: seq<Entry>)
  datatype Entry = Entry(key: string, val: V)

  function Keys(items: seq<Entry>): set<string>
  {
    if items == [] then {} else {items[0].key} + Keys(items[1..])
  }

  /** `d.get(key)`. */
  function Get(items: seq<Entry>, key: string): (r: Option<V>)
    ensures r.Some? <==> key in Keys(items)
  {
    if items == [] then None
    else if items[0].key == key then Some(items[0].val)
    else Get(items[1..], key)
  }

  /** `d[key] = v`: overwrite in place, or append a new entry. */
  function Put(items: seq<Entry>, key: string, v: V): (r: seq<Entry>)
    ensures Keys(r) == Keys(items) + {key}
  {
    if items == [] then [Entry(key, v)]
    else if items[0].key == key then [Entry(key, v)] + items[1..]
    else [items[0]] + Put(items[1..], key, v)
  }

  predicate DistinctKeys(items: seq<Entry>)
  {
    forall i, j :: 0 <= i < j < |items| ==> items[i].key != items[j].key
  }

  /** A Python dictionary: distinct keys, and so for every nested one. */
  predicate IsDict(items: seq<Entry>)
    decreases items
  {
    DistinctKeys(items) && forall i :: 0 <= i < |items| ==> IsDictValue(items[i].val)
  }

  predicate IsDictValue(v: V)
    decreases v
  {
    match v
    case Scalar(_) => true
    case Dict(items) => IsDict(items)
  }

  /** `update_recursive(orig, new)` fails when a non-empty mapping meets a
      non-mapping original value, at any depth; this rules that out. */
  predicate Compatible(orig: seq<Entry>, upd: seq<Entry>)
    decreases upd
  {
    forall i :: 0 <= i < |upd| ==> CompatibleValue(Get(orig, upd[i].key), upd[i].val)
  }

  predicate CompatibleValue(prev: Option<V>, v: V)
    decreases v
  {
    match v
    case Scalar(_) => true
    case Dict(items) =>
      match prev
      case None => true
      case Some(Dict(m)) => Compatible(m, items)
      case Some(Scalar(_)) => items == []
  }

  /** The dictionary after `update_recursive(orig, new)`: the entries of
      `new` applied in order. */
  function Merge(orig: seq<Entry>, upd: seq<Entry>): seq<Entry>
    decreases upd
  {
    if upd == [] then orig
    else Merge(Put(orig, upd[0].key, Combine(Get(orig, upd[0].key), upd[0].val)), upd[1..])
  }

  /** The value stored for one entry of `new`: a non-mapping replaces the
      original; a mapping is merged into the original mapping, or into an
      empty one; a non-mapping original is left as it is (which happens,
      for a compatible update, only when the upd mapping is empty). */
  function Combine(prev: Option<V>, v: V): V
    decreases v
  {
    match v
    case Scalar(_) => v
    case Dict(items) =>
      match prev
      case None => Dict(Merge([], items))
      case Some(Dict(m)) => Dict(Merge(m, items))
      case Some(Scalar(_)) => prev.value
  }

  /** `update_recursive`: loop over the entries of `new`, overwriting
      non-mapping values and merging mappings recursively. */
  method UpdateRecursive(orig: seq<Entry>, upd: seq<Entry>) returns (res: seq<Entry>)
    requires IsDict(upd) && Compatible(orig, upd)
    ensures res == Merge(orig, upd)
    decreases upd
  {
    res := orig;
    for i := 0 to |upd|
      invariant Merge(res, upd[i..]) == Merge(orig, upd)
      invariant forall j :: i <= j < |upd| ==> Get(res, upd[j].key) == Get(orig, upd[j].key)
    {
      var key, val := upd[i].key, upd[i].val;
      assert upd[i..][0] == upd[i] && upd[i..][1..] == upd[i + 1..];
      var prev := Get(res, key);
      assert CompatibleValue(prev, val);
      var stored: V;
      match val {
        case Scalar(_) =>
          stored := val;
        case Dict(items) =>
          match prev {
            case None =>
              var sub := UpdateRecursive([], items);
              stored := Dict(sub);
            case Some(Dict(m)) =>
              var sub := UpdateRecursive(m, items);
              stored := Dict(sub);
            case Some(Scalar(_)) =>
              stored := prev.value;
          }
      }
      forall j | i + 1 <= j < |upd|
        ensures Get(Put(res, key, stored), upd[j].key) == Get(orig, upd[j].key)
      {
        GetPut(res, key, stored, upd[j].key);
      }
      res := Put(res, key, stored);
    }
  }

  lemma {:induction false} GetPut(items: seq<Entry>, key: string, v: V, k: string)
    ensures Get(Put(items, key, v), k) == if k == key then Some(v) else Get(items, k)
    decreases items
  {
    if items != [] && items[0].key != key {
      GetPut(items[1..], key, v, k);
    }
  }
  /** A key is among the keys exactly when some entry carries it. */
  lemma {:induction false} KeysMembership(items: seq<Entry>, k: string)
    ensures k in Keys(items) <==> exists i :: 0 <= i < |items| && items[i].key == k
    decreases items
  {
    if items != [] {
      KeysMembership(items[1..], k);
      if k in Keys(items[1..]) {
        var i :| 0 <= i < |items[1..]| && items[1..][i].key == k;
        assert items[i + 1].key == k;
      }
      forall i | 1 <= i < |items| && items[i].key == k
        ensures k in Keys(items[1..])
      {
        assert items[1..][i - 1].key == k;
      }
    }
  }

  /** Keys of the original that the update does not mention keep their
      values. */
  lemma {:induction false} MergeKeepsOriginal(orig: seq<Entry>, upd: seq<Entry>, k: string)
    requires k !in Keys(upd)
    ensures Get(Merge(orig, upd), k) == Get(orig, k)
    decreases upd
  {
    if upd != [] {
      var next := Put(orig, upd[0].key, Combine(Get(orig, upd[0].key), upd[0].val));
      MergeKeepsOriginal(next, upd[1..], k);
      GetPut(orig, upd[0].key, Combine(Get(orig, upd[0].key), upd[0].val), k);
    }
  }

  /** After the update, every key of the update holds the combined value:
      a non-mapping value overwrites the original, and a mapping is merged
      into the original mapping, or into an empty one when there was
      none. */
  lemma {:induction false} MergeAppliesUpdate(orig: seq<Entry>, upd: seq<Entry>, i: int)
    requires DistinctKeys(upd) && 0 <= i < |upd|
    ensures Get(Merge(orig, upd), upd[i].key) == Some(Combine(Get(orig, upd[i].key), upd[i].val))
    ensures upd[i].val.Scalar? ==> Get(Merge(orig, upd), upd[i].key) == Some(upd[i].val)
    ensures upd[i].val.Dict? && Get(orig, upd[i].key).None? ==>
      Get(Merge(orig, upd), upd[i].key) == Some(Dict(Merge([], upd[i].val.items)))
    ensures upd[i].val.Dict? && Get(orig, upd[i].key).Some? && Get(orig, upd[i].key).value.Dict? ==>
      Get(Merge(orig, upd), upd[i].key) == Some(Dict(Merge(Get(orig, upd[i].key).value.items, upd[i].val.items)))
    decreases upd
  {
    var key := upd[0].key;
    var stored := Combine(Get(orig, key), upd[0].val);
    var next := Put(orig, key, stored);
    GetPut(orig, key, stored, upd[i].key);
    if i == 0 {
      KeysMembership(upd[1..], key);
      MergeKeepsOriginal(next, upd[1..], key);
    } else {
      assert upd[1..][i - 1] == upd[i];
      MergeAppliesUpdate(next, upd[1..], i - 1);
    }
  }

  /** The update's result has the keys of both dictionaries. */
  lemma {:induction false} MergeKeys(orig: seq<Entry>, upd: seq<Entry>)
    ensures Keys(Merge(orig, upd)) == Keys(orig) + Keys(upd)
    decreases upd
  {
    if upd != [] {
      var next := Put(orig, upd[0].key, Combine(Get(orig, upd[0].key), upd[0].val));
      MergeKeys(next, upd[1..]);
    }
  }

  lemma {:induction false} KeysAppend(a: seq<Entry>, b: seq<Entry>)
    ensures Keys(a + b) == Keys(a) + Keys(b)
    decreases a
  {
    if a == [] {
      assert a + b == b;
    } else {
      assert (a + b)[1..] == a[1..] + b;
      KeysAppend(a[1..], b);
    }
  }

  /** Storing a key that is not there appends it. */
  lemma {:induction false} PutFresh(items: seq<Entry>, key: string, v: V)
    requires key !in Keys(items)
    ensures Put(items, key, v) == items + [Entry(key, v)]
    decreases items
  {
    if items != [] {
      PutFresh(items[1..], key, v);
    }
  }

  /** Updating a dictionary with keys it does not have appends the update:
      in particular, updating an empty dictionary copies the update. */
  lemma {:induction false} MergeFresh(orig: seq<Entry>, upd: seq<Entry>)
    requires IsDict(upd) && Keys(orig) !! Keys(upd)
    ensures Merge(orig, upd) == orig + upd
    decreases upd
  {
    if upd != [] {
      var e := upd[0];
      assert IsDictValue(upd[0].val);
      CopyValue(e.val);
      PutFresh(orig, e.key, e.val);
      KeysAppend(orig, [e]);
      KeysMembership(upd[1..], e.key);
      assert IsDict(upd[1..]) by {
        forall i | 0 <= i < |upd[1..]|
          ensures IsDictValue(upd[1..][i].val)
        {
          assert upd[1..][i] == upd[i + 1];
        }
      }
      MergeFresh(orig + [e], upd[1..]);
      assert orig + [e] + upd[1..] == orig + upd;
    }
  }

  /** A value stored under a key that was not there is stored as it is. */
  lemma {:induction false} CopyValue(v: V)
    requires IsDictValue(v)
    ensures Combine(None, v) == v
    decreases v
  {
    if v.Dict? {
      MergeFresh([], v.items);
    }
  }

  /** Merging into an empty dictionary copies the update. */
  lemma MergeIntoEmpty(upd: seq<Entry>)
    requires IsDict(upd)
    ensures Merge([], upd) == upd
  {
    MergeFresh([], upd);
  }
}
