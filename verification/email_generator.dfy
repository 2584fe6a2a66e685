/**
 The candidate-address generator: from a person's name "Firstname Lastname"
 and a mail domain it builds seven guessed addresses, and it does so for a
 whole list of names, collecting the results in a dictionary keyed by name.

 The two places where the Python code raises an exception are modelled as
 `Err` results instead of preconditions, so the model also says exactly
 which names make it fail.
 */
module EmailGenerator {
  import opened PyText
  import opened PyDict

  /** The exceptions `generer_variants_email` raises. */
  datatype Failure =
      /** `prenoms, noms = nom_propre.split()` met `got` tokens, not two (a ValueError). */
    | UnpackError(got: nat)
      /** `noms[0]` on an empty family name (an IndexError). */
    | IndexError

  datatype Result<+T> = Ok(value: T) | Err(failure: Failure)

  /** Number of addresses guessed for one name. */
  const VariantCount: nat := 7

  /** The names the generator accepts: a space somewhere, and exactly two
      whitespace-separated tokens. */
  predicate IsFullName(name: string)
  {
    ' ' in name && |Split(name)| == 2
  }

  // ---------------------------------------------------------------------
  // Addresses
  // ---------------------------------------------------------------------

  /** `v` ends in `"@" + domain`, the domain exactly as given. */
  predicate AtDomain(v: string, domain: string)
  {
    |v| > |domain| && v[|v| - |domain| - 1..] == "@" + domain
  }

  /** What comes before `"@" + domain`. */
  function LocalPart(v: string, domain: string): string
    requires AtDomain(v, domain)
  {
    v[..|v| - |domain| - 1]
  }

  /** The f-string `f"{local}@{domain}"`. */
  function Address(local: string, domain: string): (v: string)
    ensures AtDomain(v, domain)
    ensures LocalPart(v, domain) == local
  {
    var v := local + "@" + domain;
    assert v[|v| - |domain| - 1..] == "@" + domain;
    assert v[..|v| - |domain| - 1] == local;
    v
  }

  function LocalParts(vs: seq<string>, domain: string): (ls: seq<string>)
    requires forall i :: 0 <= i < |vs| ==> AtDomain(vs[i], domain)
    ensures |ls| == |vs|
    ensures forall i :: 0 <= i < |vs| ==> ls[i] == LocalPart(vs[i], domain)
  {
    seq(|vs|, i requires 0 <= i < |vs| => LocalPart(vs[i], domain))
  }

  /** A generated local part: non-empty, no whitespace, no upper-case letter. */
  predicate PlausibleLocal(l: string)
  {
    l != [] && NoSpace(l) && IsLowerCase(l)
  }

  lemma PlausibleJoin(a: string, b: string)
    requires PlausibleLocal(a) && PlausibleLocal(b)
    ensures PlausibleLocal(a + b)
  {
  }

  // ---------------------------------------------------------------------
  // generer_variants_email
  // ---------------------------------------------------------------------

  /** The unpacking on the first line of `generer_variants_email`: the two
      tokens of the name when it contains a space, otherwise the whole name
      and an empty family name. */
  function SplitName(name: string): (r: Result<(string, string)>)
    ensures r.Ok? <==> ' ' !in name || |Split(name)| == 2
    ensures ' ' !in name ==> r == Ok((name, ""))
    ensures ' ' in name && r.Ok? ==> r.value == (Split(name)[0], Split(name)[1])
    ensures ' ' in name && r.Ok? ==>
              IsWord(r.value.0) && IsWord(r.value.1) && r.value.0 + r.value.1 == NonSpace(name)
    ensures r.Err? ==> r.failure == UnpackError(|Split(name)|) && |Split(name)| != 2
  {
    if ' ' in name then
      var tokens := Split(name);
      if |tokens| == 2 then
        SplitPairKeepsText(name);
        Ok((tokens[0], tokens[1]))
      else
        Err(UnpackError(|tokens|))
    else
      Ok((name, ""))
  }

  /** The list literal of `generer_variants_email`, for lower-cased given
      name `p`, lower-cased family name `n` and `p` without spaces `compact`. */
  function Templates(p: string, n: string, compact: string, domain: string): (vs: seq<string>)
    requires n != []
    ensures |vs| == VariantCount
    ensures forall i :: 0 <= i < |vs| ==> AtDomain(vs[i], domain)
    ensures LocalParts(vs, domain) == [p + "." + n, p + n, p + "." + [n[0]], p + [n[0]], n, [n[0]], compact]
  {
    [ Address(p + "." + n, domain),
      Address(p + n, domain),
      Address(p + "." + [n[0]], domain),
      Address(p + [n[0]], domain),
      Address(n, domain),
      Address([n[0]], domain),
      Address(compact, domain) ]
  }

  /** Every template built from two plausible parts has a plausible local part. */
  lemma PlausibleTemplates(p: string, n: string, domain: string)
    requires PlausibleLocal(p) && PlausibleLocal(n)
    ensures var vs := Templates(p, n, p, domain);
            forall i :: 0 <= i < |vs| ==> PlausibleLocal(LocalPart(vs[i], domain))
  {
    PlausibleJoin(p, ".");
    PlausibleJoin(p + ".", n);
    PlausibleJoin(p, n);
    PlausibleJoin(p + ".", [n[0]]);
    PlausibleJoin(p, [n[0]]);
    var ls := LocalParts(Templates(p, n, p, domain), domain);
    assert ls == [p + "." + n, p + n, p + "." + [n[0]], p + [n[0]], n, [n[0]], p];
  }

  /** `generer_variants_email(name, domain)`. */
  function Variants(name: string, domain: string): (r: Result<seq<string>>)
    ensures r.Ok? <==> IsFullName(name)
    ensures ' ' !in name ==> r == Err(IndexError)
    ensures ' ' in name && !IsFullName(name) ==> r == Err(UnpackError(|Split(name)|))
    ensures r.Ok? ==> |r.value| == VariantCount
    ensures r.Ok? ==> forall i :: 0 <= i < |r.value| ==>
              AtDomain(r.value[i], domain) && PlausibleLocal(LocalPart(r.value[i], domain))
  {
    match SplitName(name)
    case Err(e) => Err(e)
    case Ok((given, family)) =>
      var p := Lower(given);
      var n := Lower(family);
      var compact := Remove(p, ' ');
      if n == [] then
        Err(IndexError)
      else
        assert compact == p;
        PlausibleTemplates(p, n, domain);
        Ok(Templates(p, n, compact, domain))
  }

  /** The local parts of the addresses guessed for an accepted name. */
  function Locals(name: string, domain: string): (ls: seq<string>)
    requires IsFullName(name)
    ensures |ls| == VariantCount
  {
    LocalParts(Variants(name, domain).value, domain)
  }

  /** Opening `Variants` for an accepted name: the templates of its two
      tokens, lower-cased. */
  lemma VariantsOfTokens(name: string, domain: string)
    requires IsFullName(name)
    ensures var p, n := Lower(Split(name)[0]), Lower(Split(name)[1]);
            n != [] && Variants(name, domain) == Ok(Templates(p, n, p, domain))
  {
    var p := Lower(Split(name)[0]);
    assert ' ' !in p;
  }

  /** The templates written out as strings. */
  lemma TemplatesSpelled(p: string, n: string, domain: string)
    requires n != []
    ensures Templates(p, n, p, domain) == [
              p + "." + n + "@" + domain,
              p + n + "@" + domain,
              p + "." + [n[0]] + "@" + domain,
              p + [n[0]] + "@" + domain,
              n + "@" + domain,
              [n[0]] + "@" + domain,
              p + "@" + domain ]
  {
  }

  /** The seven templates, in order, for a name the generator accepts:
      given name, dot, family name; the two joined; the same two forms with
      the family initial only; the family name alone; its initial alone;
      the given name alone. Both names are lower-cased, and deleting spaces
      from the given name changes nothing. */
  lemma VariantLayout(name: string, domain: string)
    requires IsFullName(name)
    ensures var p, n := Lower(Split(name)[0]), Lower(Split(name)[1]);
            n != [] &&
            Locals(name, domain) == [p + "." + n, p + n, p + "." + [n[0]], p + [n[0]], n, [n[0]], p]
  {
    VariantsOfTokens(name, domain);
  }

  /** The initial forms are prefixes of the full forms, and the given name
      is a prefix of every combined form. */
  lemma InitialsArePrefixes(name: string, domain: string)
    requires IsFullName(name)
    ensures var l := Locals(name, domain);
            && l[2] <= l[0] && l[3] <= l[1] && l[5] <= l[4]
            && l[6] <= l[0] && l[6] <= l[1] && l[6] <= l[2] && l[6] <= l[3]
  {
    VariantLayout(name, domain);
    Prefixes(Locals(name, domain), Lower(Split(name)[0]), Lower(Split(name)[1]));
  }

  lemma Prefixes(l: seq<string>, p: string, n: string)
    requires n != [] && l == [p + "." + n, p + n, p + "." + [n[0]], p + [n[0]], n, [n[0]], p]
    ensures l[2] <= l[0] && l[3] <= l[1] && l[5] <= l[4]
    ensures l[6] <= l[0] && l[6] <= l[1] && l[6] <= l[2] && l[6] <= l[3]
  {
    assert n == [n[0]] + n[1..];
    assert l[0] == p + "." + [n[0]] + n[1..];
    assert l[1] == p + [n[0]] + n[1..];
    assert l[2] == p + "." + [n[0]];
    assert l[3] == p + [n[0]];
    assert l[4] == n && l[5] == [n[0]] && l[6] == p;
  }

  /** The domain is copied verbatim into every address: changing it changes
      nothing else, neither which names fail nor any local part. */
  lemma VariantsDomainIndependent(name: string, domain1: string, domain2: string)
    ensures Variants(name, domain1).Err? ==> Variants(name, domain1) == Variants(name, domain2)
    ensures IsFullName(name) ==> Locals(name, domain1) == Locals(name, domain2)
  {
    if IsFullName(name) {
      VariantLayout(name, domain1);
      VariantLayout(name, domain2);
    }
  }

  /** A name written as "Given Family" yields the seven templates of the
      two words, lower-cased, each followed by "@" and the domain. */
  lemma VariantsOfFullName(given: string, family: string, domain: string)
    requires IsWord(given) && IsWord(family)
    ensures var p, n := Lower(given), Lower(family);
            Variants(given + " " + family, domain) == Ok([
              p + "." + n + "@" + domain,
              p + n + "@" + domain,
              p + "." + [n[0]] + "@" + domain,
              p + [n[0]] + "@" + domain,
              n + "@" + domain,
              [n[0]] + "@" + domain,
              p + "@" + domain ])
  {
    var name := given + " " + family;
    assert JoinWords([given, family]) == name;
    SplitJoin([given, family]);
    assert name[|given|] == ' ';
    VariantsOfTokens(name, domain);
    TemplatesSpelled(Lower(given), Lower(family), domain);
  }

  /** Names made of one word (which contains no space) and names of three or
      more words fail; the error tells which. */
  lemma VariantsOfWords(words: seq<string>, domain: string)
    requires forall i :: 0 <= i < |words| ==> IsWord(words[i])
    ensures |words| == 1 ==> Variants(JoinWords(words), domain) == Err(IndexError)
    ensures |words| >= 3 ==> Variants(JoinWords(words), domain) == Err(UnpackError(|words|))
  {
    var name := JoinWords(words);
    if |words| == 1 {
      assert name == words[0];
      assert ' ' !in name by { assert IsSpace(' '); }
    } else if |words| >= 3 {
      assert name == words[0] + " " + JoinWords(words[1..]);
      assert name[|words[0]|] == ' ';
      SplitJoin(words);
      assert !IsFullName(name);
    }
  }

  lemma LowerTokens(name: string)
    requires IsFullName(name)
    ensures IsFullName(Lower(name))
    ensures Lower(Split(Lower(name))[0]) == Lower(Split(name)[0])
    ensures Lower(Split(Lower(name))[1]) == Lower(Split(name)[1])
  {
    LowerKeepsSpaces(name);
    SplitLower(name);
    var t := Split(name);
    assert Lower(Lower(t[0])) == Lower(t[0]);
    assert Lower(Lower(t[1])) == Lower(t[1]);
  }

  /** `generer_variants_email` is blind to the case of the name: the name
      and its lower-cased form give the same result, success or failure. */
  lemma VariantsIgnoreCase(name: string, domain: string)
    ensures Variants(Lower(name), domain) == Variants(name, domain)
  {
    if IsFullName(name) {
      LowerTokens(name);
      VariantsOfTokens(name, domain);
      VariantsOfTokens(Lower(name), domain);
    } else {
      LowerKeepsSpaces(name);
      SplitLower(name);
    }
  }

  // ---------------------------------------------------------------------
  // generer_emails_pour_noms_propres
  // ---------------------------------------------------------------------

  /** `generer_emails_pour_noms_propres(names, domain)`: the names are taken
      in list order and each is assigned its variants in a dictionary; the
      first name `generer_variants_email` fails on aborts the whole call. The
      result for `names` is the result for all but the last name, followed by
      the last iteration of the loop. */
  function EmailsForNames(names: seq<string>, domain: string): (r: Result<Dict<string, seq<string>>>)
    ensures r.Ok? <==> forall i :: 0 <= i < |names| ==> IsFullName(names[i])
    ensures r.Ok? ==> Keys(r.value) == Unique(names)
    decreases |names|
  {
    if names == [] then Ok([])
    else
      var init, last := names[..|names| - 1], names[|names| - 1];
      assert names == init + [last];
      match EmailsForNames(init, domain)
      case Err(e) =>
        LastOfFull(init, last);
        Err(e)
      case Ok(d) =>
        match Variants(last, domain)
        case Err(e) => Err(e)
        case Ok(v) =>
          LastOfFull(init, last);
          AssignKeys(init, last, d, v);
          Ok(Assign(d, last, v))
  }

  /** A list of names is all full names exactly when the list without its
      last name is and the last name is too. */
  lemma LastOfFull(init: seq<string>, last: string)
    ensures var names := init + [last];
            (forall i :: 0 <= i < |names| ==> IsFullName(names[i])) <==>
            (forall i :: 0 <= i < |init| ==> IsFullName(init[i])) && IsFullName(last)
  {
    var names := init + [last];
    assert forall i :: 0 <= i < |init| ==> init[i] == names[i];
    assert names[|init|] == last;
  }

  /** Assigning the last name keeps the keys in first-occurrence order. */
  lemma AssignKeys(init: seq<string>, last: string, d: Dict<string, seq<string>>, v: seq<string>)
    requires Keys(d) == Unique(init)
    ensures Keys(Assign(d, last, v)) == Unique(init + [last])
  {
    var names := init + [last];
    assert names[..|names| - 1] == init;
    assert last in Keys(d) <==> last in init;
  }

  /** Every name given maps to its own variants in the dictionary built. */
  lemma EmailsLookup(names: seq<string>, domain: string)
    requires forall i :: 0 <= i < |names| ==> IsFullName(names[i])
    ensures forall i :: 0 <= i < |names| ==>
              Get(EmailsForNames(names, domain).value, names[i]) == Some(Variants(names[i], domain).value)
  {
    EmailsFilled(names, domain);
  }

  /** `d` holds the variants of every name of `names`, each a full name. */
  predicate Filled(d: Dict<string, seq<string>>, names: seq<string>, domain: string)
  {
    forall i :: 0 <= i < |names| ==>
      IsFullName(names[i]) && Get(d, names[i]) == Some(Variants(names[i], domain).value)
  }

  lemma {:induction false} EmailsFilled(names: seq<string>, domain: string)
    requires forall i :: 0 <= i < |names| ==> IsFullName(names[i])
    ensures Filled(EmailsForNames(names, domain).value, names, domain)
    decreases |names|
  {
    if names != [] {
      var init, last := names[..|names| - 1], names[|names| - 1];
      assert names == init + [last];
      LastOfFull(init, last);
      EmailsFilled(init, domain);
      var d, v := EmailsForNames(init, domain).value, Variants(last, domain).value;
      FilledAssign(d, init, last, v, domain);
      assert EmailsForNames(names, domain) == Ok(Assign(d, last, v));
    }
  }

  /** The last iteration of the loop keeps every name seen so far mapped to
      its variants. */
  lemma FilledAssign(d: Dict<string, seq<string>>, init: seq<string>, last: string, v: seq<string>, domain: string)
    requires Filled(d, init, domain)
    requires IsFullName(last) && v == Variants(last, domain).value
    ensures Filled(Assign(d, last, v), init + [last], domain)
  {
    var names := init + [last];
    forall i | 0 <= i < |names|
      ensures IsFullName(names[i]) && Get(Assign(d, last, v), names[i]) == Some(Variants(names[i], domain).value)
    {
      if i < |init| {
        assert names[i] == init[i];
      }
    }
  }

  /** A failure among the earlier names is the failure of the whole call. */
  lemma EarlierFailurePropagates(names: seq<string>, domain: string)
    requires names != [] && EmailsForNames(names[..|names| - 1], domain).Err?
    ensures EmailsForNames(names, domain) == EmailsForNames(names[..|names| - 1], domain)
  {
  }

  /** When all earlier names succeed, the last one decides. */
  lemma LastNameDecides(names: seq<string>, domain: string)
    requires names != [] && !IsFullName(names[|names| - 1])
    requires forall j :: 0 <= j < |names| - 1 ==> IsFullName(names[j])
    ensures EmailsForNames(names, domain) == Err(Variants(names[|names| - 1], domain).failure)
  {
    var init := names[..|names| - 1];
    assert forall j :: 0 <= j < |init| ==> IsFullName(init[j]) by {
      forall j | 0 <= j < |init|
        ensures IsFullName(init[j])
      {
        assert init[j] == names[j];
      }
    }
  }

  /** The call fails with the error of the first name that fails, whatever
      the names after it. */
  lemma {:induction false} FirstFailureAborts(names: seq<string>, domain: string, k: nat)
    requires k < |names| && !IsFullName(names[k])
    requires forall j :: 0 <= j < k ==> IsFullName(names[j])
    ensures EmailsForNames(names, domain) == Err(Variants(names[k], domain).failure)
    decreases |names|
  {
    if k < |names| - 1 {
      var init := names[..|names| - 1];
      assert init[k] == names[k];
      assert forall j :: 0 <= j < k ==> init[j] == names[j];
      FirstFailureAborts(init, domain, k);
      EarlierFailurePropagates(names, domain);
    } else {
      LastNameDecides(names, domain);
    }
  }

  /** A name given again adds nothing: the dictionary keeps one entry per
      name, with the same value. */
  lemma RepeatedNameChangesNothing(names: seq<string>, name: string, domain: string)
    requires name in names
    ensures EmailsForNames(names + [name], domain) == EmailsForNames(names, domain)
  {
    var all := names + [name];
    assert all[..|all| - 1] == names;
    var i :| 0 <= i < |names| && names[i] == name;
    if EmailsForNames(names, domain).Ok? {
      EmailsLookup(names, domain);
      var d := EmailsForNames(names, domain).value;
      assert Get(d, name) == Some(Variants(name, domain).value);
      assert EmailsForNames(all, domain) == Ok(Assign(d, name, Variants(name, domain).value));
    }
  }

  /** Seen as a plain map, the result has exactly the given names as keys
      and each name's variants as its value. */
  lemma EmailsAsMap(names: seq<string>, domain: string)
    requires forall i :: 0 <= i < |names| ==> IsFullName(names[i])
    ensures var m := AsMap(EmailsForNames(names, domain).value);
            && (forall x :: x in m <==> x in names)
            && (forall x :: x in m ==> IsFullName(x) && m[x] == Variants(x, domain).value)
  {
    var d := EmailsForNames(names, domain).value;
    var m := AsMap(d);
    EmailsLookup(names, domain);
    forall x | x in m
      ensures x in names && IsFullName(x) && m[x] == Variants(x, domain).value
    {
      var i :| 0 <= i < |d| && d[i].0 == x;
      assert x in Keys(d);
      assert x in Unique(names);
      var j :| 0 <= j < |names| && names[j] == x;
    }
    forall x | x in names
      ensures x in m
    {
      var i :| 0 <= i < |names| && names[i] == x;
      var j := IndexOf(Keys(d), x);
    }
  }

  /** Order and repetition of the names only affect the order of the
      dictionary's entries: two lists with the same names give the same map. */
  lemma SameNamesSameMap(names1: seq<string>, names2: seq<string>, domain: string)
    requires forall i :: 0 <= i < |names1| ==> IsFullName(names1[i])
    requires forall x :: x in names1 <==> x in names2
    ensures EmailsForNames(names2, domain).Ok?
    ensures AsMap(EmailsForNames(names1, domain).value) == AsMap(EmailsForNames(names2, domain).value)
  {
    forall i | 0 <= i < |names2|
      ensures IsFullName(names2[i])
    {
      assert names2[i] in names1;
    }
    EmailsAsMap(names1, domain);
    EmailsAsMap(names2, domain);
    var m1 := AsMap(EmailsForNames(names1, domain).value);
    var m2 := AsMap(EmailsForNames(names2, domain).value);
    MapExtensionality(m1, m2);
  }

  lemma MapExtensionality(m1: map<string, seq<string>>, m2: map<string, seq<string>>)
    requires forall x :: x in m1 <==> x in m2
    requires forall x :: x in m1 ==> m1[x] == m2[x]
    ensures m1 == m2
  {
  }
}
