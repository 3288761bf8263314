/**
 * The registry of automata/mod.rs: the automata offered by name, in order, and
 * the lookup that compares names ignoring ASCII case. Only the dummy and life
 * rules are registered; the generator and the solver are not.
 */
module Registry {
  import opened Wrappers
  import opened Automata

  /** `available`: the registered automata, in this order. */
  function Available(): (list: seq<Automaton>)
    ensures |list| == 2 && list[0].DummyRule? && list[1].LifeRule?
  {
    [DummyRule, LifeRule]
  }

  /** An ASCII capital letter. */
  predicate IsUpper(c: char) {
    'A' <= c <= 'Z'
  }

  /** An ASCII small letter. */
  predicate IsLower(c: char) {
    'a' <= c <= 'z'
  }

  /**
   * ASCII lower-casing of one character: the result is never a capital,
   * only capitals change, and letters stay letters.
   */
  function Lower(c: char): (r: char)
    ensures !IsUpper(r)
    ensures r == c || IsUpper(c)
    ensures IsLower(r) <==> IsLower(c) || IsUpper(c)
  {
    if 'A' <= c <= 'Z' then (c as int + 32) as char else c
  }

  /** ASCII upper-casing of one character: the mirror image of Lower. */
  function Upper(c: char): (r: char)
    ensures !IsLower(r)
    ensures r == c || IsLower(c)
    ensures IsUpper(r) <==> IsUpper(c) || IsLower(c)
  {
    if 'a' <= c <= 'z' then (c as int - 32) as char else c
  }

  /** Lower-casing a capital and upper-casing it again gives it back, and the other way round. */
  lemma LowerUpperInverse(c: char)
    ensures IsUpper(c) ==> Upper(Lower(c)) == c
    ensures IsLower(c) ==> Lower(Upper(c)) == c
  {
  }

  /** Lower-casing twice is lower-casing once. */
  lemma LowerIdempotent(c: char)
    ensures Lower(Lower(c)) == Lower(c)
  {
  }

  /** Upper-casing a character does not change its lower-case form. */
  lemma LowerUpper(c: char)
    ensures Lower(Upper(c)) == Lower(c)
  {
  }

  /** Folding to lower case and folding to upper case identify the same pairs of characters. */
  lemma FoldingsAgree(c: char, d: char)
    ensures Lower(c) == Lower(d) <==> Upper(c) == Upper(d)
  {
  }

  /** `eq_ignore_ascii_case`: same length, and equal character by character once ASCII letters are lower-cased. */
  predicate EqIgnoreAsciiCase(a: string, b: string) {
    |a| == |b| && forall i :: 0 <= i < |a| ==> Lower(a[i]) == Lower(b[i])
  }

  /** A whole string upper-cased: it has no small letter left and equals the string ignoring case. */
  function UpperString(s: string): (r: string)
    ensures EqIgnoreAsciiCase(r, s)
    ensures forall i :: 0 <= i < |r| ==> !IsLower(r[i])
  {
    var r := seq(|s|, i requires 0 <= i < |s| => Upper(s[i]));
    forall i | 0 <= i < |s|
      ensures Lower(r[i]) == Lower(s[i])
    {
      LowerUpper(s[i]);
    }
    r
  }

  /** The `find` over the list from index k: the first automaton from k on whose name matches. */
  function FindFrom(list: seq<Automaton>, name: string, k: nat): (r: Option<nat>)
    requires k <= |list|
    ensures r.Some? ==>
      && k <= r.value < |list|
      && EqIgnoreAsciiCase(Name(list[r.value]), name)
      && forall j :: k <= j < r.value ==> !EqIgnoreAsciiCase(Name(list[j]), name)
    ensures r.None? ==> forall j :: k <= j < |list| ==> !EqIgnoreAsciiCase(Name(list[j]), name)
    decreases |list| - k
  {
    if k == |list| then None
    else if EqIgnoreAsciiCase(Name(list[k]), name) then Some(k)
    else FindFrom(list, name, k + 1)
  }

  /** Entry k of the registry is the first whose name matches. */
  predicate IsFirstMatch(k: int, name: string) {
    && 0 <= k < |Available()|
    && EqIgnoreAsciiCase(Name(Available()[k]), name)
    && forall j :: 0 <= j < k ==> !EqIgnoreAsciiCase(Name(Available()[j]), name)
  }

  /**
   * `by_name`: the first registered automaton whose name equals `name` up to
   * ASCII case, or nothing when none does.
   */
  function ByName(name: string): (r: Option<Automaton>)
    ensures r.Some? ==> exists k :: IsFirstMatch(k, name) && Available()[k] == r.value
    ensures r.None? <==> forall a :: a in Available() ==> !EqIgnoreAsciiCase(Name(a), name)
  {
    var list := Available();
    match FindFrom(list, name, 0)
    case None => None
    case Some(k) => Some(list[k])
  }

  /** The lookup does not see case: a name and its upper-cased form find the same automaton. */
  lemma ByNameIgnoresCase(name: string)
    ensures ByName(UpperString(name)) == ByName(name)
  {
    var up := UpperString(name);
    forall a: Automaton
      ensures EqIgnoreAsciiCase(Name(a), up) <==> EqIgnoreAsciiCase(Name(a), name)
    {
      assert EqIgnoreAsciiCase(up, name);
    }
  }

  /** Every registered automaton is found under its own name. */
  lemma ByNameFindsRegistered(a: Automaton)
    requires a in Available()
    ensures ByName(Name(a)) == Some(a)
  {
    assert EqIgnoreAsciiCase(Name(a), Name(a));
    if a.LifeRule? {
      assert !EqIgnoreAsciiCase(Name(DummyRule), Name(a)) by {
        assert Lower(Name(DummyRule)[0]) != Lower(Name(a)[0]);
      }
    }
  }

  /** Lookups of sample names: case is ignored, and the generator and solver are not offered. */
  lemma ByNameExamples()
    ensures ByName("LIFE") == Some(LifeRule)
    ensures ByName("Dummy") == Some(DummyRule)
    ensures ByName("generator") == None
    ensures ByName("mazesolver") == None
    ensures ByName("") == None
  {
    assert EqIgnoreAsciiCase("life", "LIFE");
    assert !EqIgnoreAsciiCase("dummy", "LIFE") by { assert Lower("dummy"[0]) != Lower("LIFE"[0]); }
    assert EqIgnoreAsciiCase("dummy", "Dummy");
    assert !EqIgnoreAsciiCase("dummy", "generator");
    assert !EqIgnoreAsciiCase("life", "generator");
    assert !EqIgnoreAsciiCase("dummy", "mazesolver");
    assert !EqIgnoreAsciiCase("life", "mazesolver");
  }
}
