/** Address matching for the shop-name enrichment (merge_terrasses_enhanced.py):
    `standardize_address` puts an address in a canonical form, and
    `find_closest_address` picks, among the known addresses, the one whose
    letters and digits overlap the target's the most. */
module Address {
  import opened Wrappers
  import opened JsonValue
  import opened Text

  /** The replacement table of `standardize_address`, in its dictionary order:
      four abbreviations, then five rules that replace a text by itself. */
  const Replacements: seq<(string, string)> := Abbreviations + IdentityRules

  const Abbreviations: seq<(string, string)> :=
    [("BOULEVARD", "BD"), ("AVENUE", "AV"), ("SAINT", "ST"), ("SAINTE", "STE")]

  const IdentityRules: seq<(string, string)> :=
    [(" DE LA ", " DE LA "), (" DE L'", " DE L'"), (" DU ", " DU "), (" DES ", " DES "), (" D'", " D'")]

  predicate PatternsNonEmpty(table: seq<(string, string)>) {
    forall i :: 0 <= i < |table| ==> |table[i].0| > 0
  }

  /** Applies each rule of `table` in turn to the whole string. */
  function ApplyAll(s: string, table: seq<(string, string)>): string
    requires PatternsNonEmpty(table)
    decreases |table|
  {
    if |table| == 0 then s
    else ApplyAll(ReplaceAll(s, table[0].0, table[0].1), table[1..])
  }

  /** `standardize_address` on a string: upper-cased, stripped, and the
      replacement table applied. */
  function Standardize(s: string): (r: string)
    ensures s == "" ==> r == ""
    ensures UpperCased(r) && Trimmed(r)
    ensures !OccursIn("SAINT", r)
  {
    if s == "" then ""
    else
      var t := Strip(Upper(s));
      TableIsEffective(t);
      UpperIsUpperCased(s);
      StripKeepsUpperCased(Upper(s));
      EffectiveShape(t);
      ApplyAll(t, Replacements)
  }

  /** The three rules that change anything, in table order. */
  function Effective(s: string): string {
    ReplaceAll(ReplaceAll(ReplaceAll(s, "BOULEVARD", "BD"), "AVENUE", "AV"), "SAINT", "ST")
  }

  lemma {:induction false} ApplyAllAppend(s: string, a: seq<(string, string)>, b: seq<(string, string)>)
    requires PatternsNonEmpty(a) && PatternsNonEmpty(b)
    ensures PatternsNonEmpty(a + b)
    ensures ApplyAll(s, a + b) == ApplyAll(ApplyAll(s, a), b)
    decreases |a|
  {
    if |a| == 0 {
      assert a + b == b;
    } else {
      assert (a + b)[1..] == a[1..] + b;
      assert (a + b)[0] == a[0];
      var s' := ReplaceAll(s, a[0].0, a[0].1);
      ApplyAllAppend(s', a[1..], b);
      assert ApplyAll(s, a + b) == ApplyAll(s', a[1..] + b);
      assert ApplyAll(s, a) == ApplyAll(s', a[1..]);
    }
  }

  /** Rules that replace a text by itself change nothing. */
  lemma {:induction false} IdentityRulesKeep(s: string, table: seq<(string, string)>)
    requires PatternsNonEmpty(table)
    requires forall i :: 0 <= i < |table| ==> table[i].0 == table[i].1
    ensures ApplyAll(s, table) == s
    decreases |table|
  {
    if |table| > 0 {
      ReplaceBySelf(s, table[0].0);
      IdentityRulesKeep(s, table[1..]);
    }
  }

  /** Once `SAINT` is rewritten, `SAINTE` cannot occur any more. */
  lemma SaintGone(t: string)
    ensures !OccursIn("SAINT", ReplaceAll(t, "SAINT", "ST"))
    ensures !OccursIn("SAINTE", ReplaceAll(t, "SAINT", "ST"))
  {
    var r := ReplaceAll(t, "SAINT", "ST");
    assert CannotRecreate("SAINT", "ST") by {
      assert "ST"[1..] == "T";
      assert "SAINT"[..2][1] == 'A' && "SAINT"[..1][0] == 'S';
      assert !StartsWith("SAINT", "ST") && !StartsWith("SAINT", "T");
    }
    ReplaceRemoves(t, "SAINT", "ST");
    forall i | OccursAt("SAINTE", r, i)
      ensures OccursAt("SAINT", r, i)
    {
      assert r[i..i + 5] == r[i..i + 6][..5];
    }
  }

  /** Only three rules of the table have an effect: `SAINT` is rewritten
      before `SAINTE` is looked for, so every `SAINTE` has already become
      `STE`, and the remaining five rules replace a text by itself. */
  lemma TableIsEffective(t: string)
    ensures PatternsNonEmpty(Replacements)
    ensures ApplyAll(t, Replacements) == Effective(t)
  {
    var t1 := ReplaceAll(t, "BOULEVARD", "BD");
    var t2 := ReplaceAll(t1, "AVENUE", "AV");
    var t3 := ReplaceAll(t2, "SAINT", "ST");
    ApplyAllAppend(t, Abbreviations, IdentityRules);
    SaintGone(t2);
    ReplaceAbsent(t3, "SAINTE", "STE");
    assert Abbreviations[1..][1..][1..][1..] == [];
    assert ApplyAll(t, Abbreviations) == t3;
    IdentityRulesKeep(t3, IdentityRules);
  }

  /** The effective rules keep an upper-cased, stripped string so, and leave
      no `SAINT` in it. */
  lemma EffectiveShape(t: string)
    requires UpperCased(t) && Trimmed(t)
    ensures UpperCased(Effective(t)) && Trimmed(Effective(t))
    ensures !OccursIn("SAINT", Effective(t))
  {
    var t1 := ReplaceAll(t, "BOULEVARD", "BD");
    var t2 := ReplaceAll(t1, "AVENUE", "AV");
    SaintGone(t2);
    ReplaceKeepsUpperCased(t, "BOULEVARD", "BD");
    ReplaceKeepsUpperCased(t1, "AVENUE", "AV");
    ReplaceKeepsUpperCased(t2, "SAINT", "ST");
    ReplaceKeepsTrimmed(t, "BOULEVARD", "BD");
    ReplaceKeepsTrimmed(t1, "AVENUE", "AV");
    ReplaceKeepsTrimmed(t2, "SAINT", "ST");
  }

  lemma StripKeepsUpperCased(s: string)
    requires UpperCased(s)
    ensures UpperCased(Strip(s))
  {
    var i, j :| 0 <= i <= j <= |s| && Strip(s) == s[i..j] && AllSpace(s[..i]) && AllSpace(s[j..]);
    assert forall k :: 0 <= k < j - i ==> s[i..j][k] == s[i + k];
  }

  datatype AddressError =
    | AddressNotAString   // `upper()` called on a truthy value that is not a string
    | ZeroDivision        // both simplified strings are empty

  /** `standardize_address` on any JSON value: a falsy value gives the empty
      string, a string is standardized, anything else has no `upper`. */
  function StandardizeAddress(v: Json): (r: Result<string, AddressError>)
    ensures !PyTruthy(v) ==> r == Ok("")
    ensures v.JStr? ==> r == Ok(Standardize(v.s))
    ensures r.Err? <==> PyTruthy(v) && !v.JStr?
  {
    if !PyTruthy(v) then Ok("")
    else match v
      case JStr(s) => Ok(Standardize(s))
      case _ => Err(AddressNotAString)
  }

  // ---------------------------------------------------------------------------
  // find_closest_address

  /** One string contains the other. */
  predicate Related(a: string, b: string) {
    Contains(b, a) || Contains(a, b)
  }

  /** The ratio of the shorter length to the longer; the source divides by
      zero when both are empty, which `Scan` reports before using this. */
  function Score(a: string, b: string): (r: real)
    ensures 0.0 <= r <= 1.0
    ensures |a| + |b| > 0 ==>
      r * (if |a| <= |b| then |b| else |a|) as real == (if |a| <= |b| then |a| else |b|) as real
    ensures r == 1.0 <==> |a| == |b| && |a| > 0
  {
    var lo := if |a| <= |b| then |a| else |b|;
    var hi := if |a| <= |b| then |b| else |a|;
    if hi == 0 then 0.0 else (Ratio(lo, hi); lo as real / hi as real)
  }

  /** Facts about the quotient of two lengths, the shorter over the longer. */
  lemma Ratio(lo: nat, hi: nat)
    requires 0 < hi && lo <= hi
    ensures var q := lo as real / hi as real;
      && 0.0 <= q <= 1.0
      && q * hi as real == lo as real
      && (q == 1.0 <==> lo == hi)
  {
    var q := lo as real / hi as real;
    assert q * hi as real == lo as real;
    if q == 1.0 {
      assert lo as real == hi as real;
    }
  }

  /** The loop state: the best address so far and its score. */
  datatype Best = Best(address: Option<string>, score: real)

  /** The scan over `addresses` against the simplified target `t`, keeping
      the first address with the strictly highest score. */
  function Scan(t: string, addresses: seq<string>): Result<Best, AddressError>
    decreases |addresses|
  {
    if |addresses| == 0 then Ok(Best(None, 0.0))
    else
      var best :- Scan(t, addresses[..|addresses| - 1]);
      var a := addresses[|addresses| - 1];
      var sa := KeepAlnum(a);
      if !Related(t, sa) then Ok(best)
      else if |t| == 0 && |sa| == 0 then Err(ZeroDivision)
      else if Score(t, sa) > best.score then Ok(Best(Some(a), Score(t, sa)))
      else Ok(best)
  }

  /** Threshold the best score must exceed. */
  const Threshold: real := 0.6

  /** `find_closest_address`. */
  function FindClosest(target: string, addresses: seq<string>): (r: Result<Option<string>, AddressError>)
    ensures r.Ok? && r.value.Some? ==> r.value.value in addresses
  {
    var best :- Scan(KeepAlnum(target), addresses);
    ScanBest(KeepAlnum(target), addresses);
    Ok(if best.score > Threshold then best.address else None)
  }

  /** The score of the address at index `i` against `t`, or 0 when the two do
      not overlap. */
  function ScoreAt(t: string, addresses: seq<string>, i: int): real
    requires 0 <= i < |addresses|
  {
    if Related(t, KeepAlnum(addresses[i])) then Score(t, KeepAlnum(addresses[i])) else 0.0
  }

  /** The address at index `i` has the highest score of the first `n`, and
      every earlier one scores strictly less. */
  ghost predicate FirstBest(t: string, addresses: seq<string>, n: int, i: int)
    requires 0 <= n <= |addresses|
  {
    && 0 <= i < n
    && Related(t, KeepAlnum(addresses[i]))
    && (forall j :: 0 <= j < n ==> ScoreAt(t, addresses, j) <= ScoreAt(t, addresses, i))
    && (forall j :: 0 <= j < i ==> ScoreAt(t, addresses, j) < ScoreAt(t, addresses, i))
  }

  /** Both simplified strings are empty: `"" in ""` holds and the score divides by zero. */
  ghost predicate DividesByZero(t: string, addresses: seq<string>, i: int)
    requires 0 <= i < |addresses|
  {
    |t| == 0 && |KeepAlnum(addresses[i])| == 0
  }

  /** The scan fails exactly when the target simplifies to nothing and so
      does some address. */
  lemma {:induction false} ScanFails(t: string, addresses: seq<string>)
    ensures Scan(t, addresses).Err? <==> exists i :: 0 <= i < |addresses| && DividesByZero(t, addresses, i)
    decreases |addresses|
  {
    if |addresses| > 0 {
      var n := |addresses| - 1;
      var init := addresses[..n];
      ScanFails(t, init);
      var sa := KeepAlnum(addresses[n]);
      if exists i :: 0 <= i < |addresses| && DividesByZero(t, addresses, i) {
        var i :| 0 <= i < |addresses| && DividesByZero(t, addresses, i);
        if i < n {
          assert DividesByZero(t, init, i);
        } else {
          assert StartsWith(sa, t);
        }
      }
      if Scan(t, init).Err? {
        var i :| 0 <= i < n && DividesByZero(t, init, i);
        assert DividesByZero(t, addresses, i);
      } else if Related(t, sa) && |t| == 0 && |sa| == 0 {
        assert DividesByZero(t, addresses, n);
      } else {
        assert forall j :: 0 <= j < n ==> (DividesByZero(t, init, j) <==> DividesByZero(t, addresses, j));
      }
    }
  }

  /** The state of a successful scan: no address when nothing scores above
      zero, and else the first address with the highest score. */
  ghost predicate ScanResult(t: string, addresses: seq<string>, b: Best) {
    && 0.0 <= b.score
    && (b.address.None? <==> b.score == 0.0)
    && (b.address.None? ==> forall j :: 0 <= j < |addresses| ==> ScoreAt(t, addresses, j) == 0.0)
    && (b.address.Some? ==> exists i ::
          && FirstBest(t, addresses, |addresses|, i)
          && b.address.value == addresses[i]
          && b.score == ScoreAt(t, addresses, i))
  }

  lemma {:induction false} ScanBest(t: string, addresses: seq<string>)
    requires Scan(t, addresses).Ok?
    ensures ScanResult(t, addresses, Scan(t, addresses).value)
    decreases |addresses|
  {
    if |addresses| > 0 {
      var n := |addresses| - 1;
      var init := addresses[..n];
      ScanBest(t, init);
      ScanStep(t, addresses, Scan(t, init).value);
    }
  }

  /** One step of the scan keeps `ScanResult`. */
  lemma ScanStep(t: string, addresses: seq<string>, b: Best)
    requires |addresses| > 0
    requires Scan(t, addresses[..|addresses| - 1]) == Ok(b)
    requires ScanResult(t, addresses[..|addresses| - 1], b)
    requires Scan(t, addresses).Ok?
    ensures ScanResult(t, addresses, Scan(t, addresses).value)
  {
    var n := |addresses| - 1;
    var init := addresses[..n];
    var sa := KeepAlnum(addresses[n]);
    ScoresAgree(t, addresses);
    BestBounds(t, init, b);
    if !Related(t, sa) || Score(t, sa) <= b.score {
      assert Scan(t, addresses) == Ok(b);
      assert ScoreAt(t, addresses, n) <= b.score;
      if b.address.Some? {
        var i :| FirstBest(t, init, n, i) && b.address.value == init[i] && b.score == ScoreAt(t, init, i);
        ExtendFirstBest(t, addresses, i);
      }
    } else {
      assert Scan(t, addresses) == Ok(Best(Some(addresses[n]), Score(t, sa)));
      assert ScoreAt(t, addresses, n) == Score(t, sa);
      NewFirstBest(t, addresses);
    }
  }

  /** The first `n` addresses score the same in a longer list. */
  lemma ScoresAgree(t: string, addresses: seq<string>)
    requires |addresses| > 0
    ensures forall j :: 0 <= j < |addresses| - 1 ==>
      ScoreAt(t, addresses[..|addresses| - 1], j) == ScoreAt(t, addresses, j)
  {
  }

  /** No address scores above the best score of a successful scan. */
  lemma BestBounds(t: string, addresses: seq<string>, b: Best)
    requires ScanResult(t, addresses, b)
    ensures forall j :: 0 <= j < |addresses| ==> ScoreAt(t, addresses, j) <= b.score
  {
    if b.address.Some? {
      var i :| FirstBest(t, addresses, |addresses|, i) && b.address.value == addresses[i] && b.score == ScoreAt(t, addresses, i);
    }
  }

  /** The best of the first `n` stays the best when the last address scores no higher. */
  lemma ExtendFirstBest(t: string, addresses: seq<string>, i: int)
    requires |addresses| > 0
    requires FirstBest(t, addresses[..|addresses| - 1], |addresses| - 1, i)
    requires ScoreAt(t, addresses, |addresses| - 1) <= ScoreAt(t, addresses[..|addresses| - 1], i)
    ensures FirstBest(t, addresses, |addresses|, i)
  {
    ScoresAgree(t, addresses);
  }

  /** The last address is the first best when it beats every earlier one. */
  lemma NewFirstBest(t: string, addresses: seq<string>)
    requires |addresses| > 0
    requires Related(t, KeepAlnum(addresses[|addresses| - 1]))
    requires forall j :: 0 <= j < |addresses| - 1 ==> ScoreAt(t, addresses, j) < ScoreAt(t, addresses, |addresses| - 1)
    ensures FirstBest(t, addresses, |addresses|, |addresses| - 1)
  {
  }

  /** `find_closest_address` fails exactly on a division by zero; an address
      it returns overlaps the target, scores above the threshold, scores at
      least as high as every address and strictly higher than every earlier
      one; and it returns `None` exactly when no address scores above the
      threshold. */
  lemma FindClosestSpec(target: string, addresses: seq<string>)
    ensures var t := KeepAlnum(target);
      var r := FindClosest(target, addresses);
      && (r.Err? <==> exists i :: 0 <= i < |addresses| && DividesByZero(t, addresses, i))
      && (r.Ok? && r.value.Some? ==> exists i ::
            && FirstBest(t, addresses, |addresses|, i)
            && r.value.value == addresses[i]
            && ScoreAt(t, addresses, i) > Threshold)
      && (r == Ok(None) <==> r.Ok? && forall j :: 0 <= j < |addresses| ==> ScoreAt(t, addresses, j) <= Threshold)
  {
    var t := KeepAlnum(target);
    ScanFails(t, addresses);
    var r := FindClosest(target, addresses);
    assert r.Err? <==> Scan(t, addresses).Err?;
    if r.Ok? {
      ScanBest(t, addresses);
      var b := Scan(t, addresses).value;
      var out := if b.score > Threshold then b.address else None;
      assert r.value == out;
      Thresholded(t, addresses, b);
      if out.Some? {
        var i :| FirstBest(t, addresses, |addresses|, i) && out.value == addresses[i] && ScoreAt(t, addresses, i) > Threshold;
      }
    }
  }

  /** Applying the threshold to a scan result. */
  lemma Thresholded(t: string, addresses: seq<string>, b: Best)
    requires ScanResult(t, addresses, b)
    ensures var out := if b.score > Threshold then b.address else None;
      && (out.Some? ==> exists i ::
            && FirstBest(t, addresses, |addresses|, i)
            && out.value == addresses[i]
            && ScoreAt(t, addresses, i) > Threshold)
      && (out.None? <==> forall j :: 0 <= j < |addresses| ==> ScoreAt(t, addresses, j) <= Threshold)
  {
    if b.address.Some? {
      var i :| FirstBest(t, addresses, |addresses|, i) && b.address.value == addresses[i] && b.score == ScoreAt(t, addresses, i);
      if b.score <= Threshold {
        assert forall j :: 0 <= j < |addresses| ==> ScoreAt(t, addresses, j) <= Threshold;
      } else {
        assert !(forall j :: 0 <= j < |addresses| ==> ScoreAt(t, addresses, j) <= Threshold) by {
          assert ScoreAt(t, addresses, i) > Threshold;
        }
      }
    }
  }

  /** An empty list of known addresses matches nothing. */
  lemma NoAddressNoMatch(target: string)
    ensures FindClosest(target, []) == Ok(None)
  {
  }
}
