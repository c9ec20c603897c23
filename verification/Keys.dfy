/** The compact text form of store keys, under which the external stores file their counters. */
module Keys {
  import opened Prelude
  import opened Contract

  function UnitName(unit: BudgetUnit): string {
    match unit
    case Requests => "requests"
    case Tokens => "tokens"
    case Credits => "credits"
    case Cents => "cents"
    case Bytes => "bytes"
    case Messages => "messages"
    case Custom(value) => value
  }

  function Compact(key: StoreKey): string {
    key.policyName + ":" + key.budgetKey.provider + ":" + key.budgetKey.domain + ":"
    + key.budgetKey.resource + ":" + key.budgetKey.subject + ":" + UnitName(key.unit)
  }

  // ---------------------------------------------------------------- reading a key back

  /** The pieces between colons. */
  function Split(text: string): (parts: seq<string>)
    ensures |parts| >= 1
    ensures forall i :: 0 <= i < |parts| ==> ':' !in parts[i]
  {
    if text == "" then [""]
    else
      var rest := Split(text[1..]);
      if text[0] == ':' then [""] + rest else [[text[0]] + rest[0]] + rest[1..]
  }

  function UnitNamed(name: string): BudgetUnit {
    if name == "requests" then Requests
    else if name == "tokens" then Tokens
    else if name == "credits" then Credits
    else if name == "cents" then Cents
    else if name == "bytes" then Bytes
    else if name == "messages" then Messages
    else Custom(name)
  }

  function Parse(text: string): Option<StoreKey> {
    var parts := Split(text);
    if |parts| != 6 then None
    else Some(StoreKey(parts[0], BudgetKey(parts[1], parts[2], parts[3], parts[4]), UnitNamed(parts[5])))
  }

  /** The names that belong to built-in units; reading a unit's name back gives the unit, but for a custom one so named. */
  lemma BuiltInNames(unit: BudgetUnit, name: string)
    ensures UnitNamed(name).Custom? <==>
            name != "requests" && name != "tokens" && name != "credits" && name != "cents" && name != "bytes" && name != "messages"
    ensures UnitNamed("requests") == Requests && UnitNamed("tokens") == Tokens && UnitNamed("credits") == Credits
    ensures UnitNamed("cents") == Cents && UnitNamed("bytes") == Bytes && UnitNamed("messages") == Messages
    ensures UnitNamed(UnitName(unit)) == unit <==> unit.Custom? ==> UnitNamed(unit.value).Custom?
  {
  }

  predicate NoColons(key: StoreKey) {
    && ':' !in key.policyName
    && ':' !in key.budgetKey.provider && ':' !in key.budgetKey.domain
    && ':' !in key.budgetKey.resource && ':' !in key.budgetKey.subject
    && ':' !in UnitName(key.unit)
  }

  /** No component contains a colon and no custom unit borrows a built-in name. */
  predicate Canonical(key: StoreKey) {
    && NoColons(key)
    && UnitNamed(UnitName(key.unit)) == key.unit
  }

  lemma {:induction false} SplitWhole(text: string)
    requires ':' !in text
    ensures Split(text) == [text]
  {
    if text != "" {
      SplitWhole(text[1..]);
      assert [text[0]] + text[1..] == text;
    }
  }

  lemma {:induction false} SplitFirst(part: string, rest: string)
    requires ':' !in part
    ensures Split(part + ":" + rest) == [part] + Split(rest)
  {
    var text := part + ":" + rest;
    if part == "" {
      assert text[1..] == rest;
    } else {
      assert text[1..] == part[1..] + ":" + rest;
      SplitFirst(part[1..], rest);
      assert [part[0]] + part[1..] == part;
    }
  }

  lemma SplitCompact(key: StoreKey)
    requires NoColons(key)
    ensures Split(Compact(key)) == [key.policyName, key.budgetKey.provider, key.budgetKey.domain,
                                    key.budgetKey.resource, key.budgetKey.subject, UnitName(key.unit)]
  {
    var b := key.budgetKey;
    var r5 := UnitName(key.unit);
    var r4 := b.subject + ":" + r5;
    var r3 := b.resource + ":" + r4;
    var r2 := b.domain + ":" + r3;
    var r1 := b.provider + ":" + r2;
    assert Compact(key) == key.policyName + ":" + r1;
    SplitFirst(key.policyName, r1);
    SplitFirst(b.provider, r2);
    SplitFirst(b.domain, r3);
    SplitFirst(b.resource, r4);
    SplitFirst(b.subject, r5);
    SplitWhole(r5);
  }

  /** Splitting on colons reads a key back exactly when the key is canonical. */
  lemma CompactReadable(key: StoreKey)
    ensures Parse(Compact(key)) == Some(key) <==> Canonical(key)
  {
    if Canonical(key) {
      SplitCompact(key);
    }
  }

  /** Distinct canonical keys never share a compact form, so distinct budgets never share a counter. */
  lemma CompactInjective(a: StoreKey, b: StoreKey)
    requires Canonical(a) && Canonical(b) && Compact(a) == Compact(b)
    ensures a == b
  {
    CompactReadable(a);
    CompactReadable(b);
  }

  // ---------------------------------------------------------------- keys that share their text

  lemma {:induction false} SplitJoined(part: string, rest: string)
    ensures |Split(part + ":" + rest)| == |Split(part)| + |Split(rest)|
  {
    var text := part + ":" + rest;
    if part == "" {
      assert text[1..] == rest;
    } else {
      assert text[1..] == part[1..] + ":" + rest;
      SplitJoined(part[1..], rest);
    }
  }

  lemma {:induction false} SplitOnce(text: string)
    requires |Split(text)| == 1
    ensures ':' !in text
  {
    if text != "" {
      SplitOnce(text[1..]);
    }
  }

  /** A text of six pieces is the form of keys without colons only. */
  lemma SixPieces(key: StoreKey)
    requires |Split(Compact(key))| == 6
    ensures NoColons(key)
  {
    var b := key.budgetKey;
    var r5 := UnitName(key.unit);
    var r4 := b.subject + ":" + r5;
    var r3 := b.resource + ":" + r4;
    var r2 := b.domain + ":" + r3;
    var r1 := b.provider + ":" + r2;
    assert Compact(key) == key.policyName + ":" + r1;
    SplitJoined(key.policyName, r1);
    SplitJoined(b.provider, r2);
    SplitJoined(b.domain, r3);
    SplitJoined(b.resource, r4);
    SplitJoined(b.subject, r5);
    SplitOnce(key.policyName);
    SplitOnce(b.provider);
    SplitOnce(b.domain);
    SplitOnce(b.resource);
    SplitOnce(b.subject);
    SplitOnce(r5);
  }

  /** A canonical key with a custom unit shares its text with no key at all. */
  lemma CustomUnshared(a: StoreKey, b: StoreKey)
    requires Canonical(a) && a.unit.Custom? && Compact(b) == Compact(a)
    ensures b == a
  {
    SplitCompact(a);
    SixPieces(b);
    SplitCompact(b);
    assert UnitName(b.unit) == a.unit.value;
  }

  /** The text in front of the first colon. */
  function Head(text: string): (head: string)
    requires ':' in text
    ensures |head| < |text| && text == head + ":" + text[|head| + 1..]
  {
    if text[0] == ':' then "" else [text[0]] + Head(text[1..])
  }

  function Tail(text: string): string
    requires ':' in text
  {
    text[|Head(text)| + 1..]
  }

  lemma Regroup(p: string, q: string, r: string)
    ensures (p + ":" + q) + ":" + r == p + ":" + (q + ":" + r)
  {
  }

  /** `Compact` with the text after the policy name grouped to the right. */
  lemma CompactNested(key: StoreKey)
    ensures Compact(key) == key.policyName + ":" + (key.budgetKey.provider + ":" + (key.budgetKey.domain + ":"
                            + (key.budgetKey.resource + ":" + (key.budgetKey.subject + ":" + UnitName(key.unit)))))
  {
  }

  /** What follows a component's first colon can as well be the front of the next component. */
  function Shifted(key: StoreKey): StoreKey
    requires !NoColons(key)
  {
    var k := key.budgetKey;
    if ':' in key.policyName then
      key.(policyName := Head(key.policyName), budgetKey := k.(provider := Tail(key.policyName) + ":" + k.provider))
    else if ':' in k.provider then
      key.(budgetKey := k.(provider := Head(k.provider), domain := Tail(k.provider) + ":" + k.domain))
    else if ':' in k.domain then
      key.(budgetKey := k.(domain := Head(k.domain), resource := Tail(k.domain) + ":" + k.resource))
    else if ':' in k.resource then
      key.(budgetKey := k.(resource := Head(k.resource), subject := Tail(k.resource) + ":" + k.subject))
    else if ':' in k.subject then
      key.(budgetKey := k.(subject := Head(k.subject)), unit := Custom(Tail(k.subject) + ":" + UnitName(key.unit)))
    else
      key.(budgetKey := k.(subject := k.subject + ":" + Head(UnitName(key.unit))), unit := Custom(Tail(UnitName(key.unit))))
  }

  lemma ShiftedShares(key: StoreKey)
    requires !NoColons(key)
    ensures Shifted(key) != key && Compact(Shifted(key)) == Compact(key)
  {
    var k, unit := key.budgetKey, UnitName(key.unit);
    CompactNested(key);
    CompactNested(Shifted(key));
    if ':' in key.policyName {
      Regroup(Head(key.policyName), Tail(key.policyName),
              k.provider + ":" + (k.domain + ":" + (k.resource + ":" + (k.subject + ":" + unit))));
      Regroup(Tail(key.policyName), k.provider, k.domain + ":" + (k.resource + ":" + (k.subject + ":" + unit)));
    } else if ':' in k.provider {
      Regroup(Head(k.provider), Tail(k.provider), k.domain + ":" + (k.resource + ":" + (k.subject + ":" + unit)));
      Regroup(Tail(k.provider), k.domain, k.resource + ":" + (k.subject + ":" + unit));
    } else if ':' in k.domain {
      Regroup(Head(k.domain), Tail(k.domain), k.resource + ":" + (k.subject + ":" + unit));
      Regroup(Tail(k.domain), k.resource, k.subject + ":" + unit);
    } else if ':' in k.resource {
      Regroup(Head(k.resource), Tail(k.resource), k.subject + ":" + unit);
      Regroup(Tail(k.resource), k.subject, unit);
    } else if ':' in k.subject {
      Regroup(Head(k.subject), Tail(k.subject), unit);
    } else {
      Regroup(k.subject, Head(unit), Tail(unit));
    }
  }

  /** A different key with the same text, for every key that has one. */
  function Sharer(key: StoreKey): StoreKey
    requires !Canonical(key) || !key.unit.Custom?
  {
    if !NoColons(key) then Shifted(key)
    else if key.unit.Custom? then key.(unit := UnitNamed(key.unit.value))
    else key.(unit := Custom(UnitName(key.unit)))
  }

  lemma SharerShares(key: StoreKey)
    requires !Canonical(key) || !key.unit.Custom?
    ensures Sharer(key) != key && Compact(Sharer(key)) == Compact(key)
  {
    if !NoColons(key) {
      ShiftedShares(key);
    } else {
      assert UnitName(Sharer(key).unit) == UnitName(key.unit);
    }
  }

  ghost predicate Unshared(a: StoreKey) {
    forall b :: Compact(b) == Compact(a) ==> b == a
  }

  /**
   * A key is the only one with its text exactly when none of its components holds a colon and its unit is a custom
   * one not named like a built-in unit; a built-in unit always shares its text with the custom unit of that name.
   */
  lemma UnsharedExactly(a: StoreKey)
    ensures Unshared(a) <==> Canonical(a) && a.unit.Custom?
  {
    if Canonical(a) && a.unit.Custom? {
      forall b | Compact(b) == Compact(a)
        ensures b == a
      {
        CustomUnshared(a, b);
      }
    } else {
      SharerShares(a);
    }
  }

  /** Two budgets under one text, by a unit's name and by a colon. */
  lemma CompactCollides() returns (a: StoreKey, b: StoreKey, c: StoreKey, d: StoreKey)
    ensures a != b && Compact(a) == Compact(b) && !Canonical(a) && Canonical(b)
    ensures c != d && Compact(c) == Compact(d) && c.policyName == "team" && d.policyName == "team:search"
  {
    var key := BudgetKey("serpapi", "search", "google", "global");
    a, b := StoreKey("policy", key, Custom("requests")), StoreKey("policy", key, Requests);
    c := StoreKey("team", key.(provider := "search:serpapi"), Requests);
    d := StoreKey("team:search", key, Requests);
    CompactNested(c);
    CompactNested(d);
    Regroup("team", "search", "serpapi" + ":" + ("search" + ":" + ("google" + ":" + ("global" + ":" + "requests"))));
    Regroup("search", "serpapi", "search" + ":" + ("google" + ":" + ("global" + ":" + "requests")));
    assert "team" + ":" + "search" == "team:search";
    assert "search" + ":" + "serpapi" == "search:serpapi";
  }
}
