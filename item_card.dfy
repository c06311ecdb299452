/**
 * The part card (the BomItemCard component): a status badge whose colour
 * comes from a switch and whose text is the status literal with its first
 * underscore turned into a space, an optional description, an optional
 * supplier block and an optional metrics section.
 */
module ItemCard {
  import opened BomTypes

  /** Badge colour for a part status string. */
  function BadgeClass(status: string): (r: string)
    ensures r in {"bg-green-100 text-green-700", "bg-yellow-100 text-yellow-700",
                  "bg-gray-100 text-gray-700", "bg-blue-100 text-blue-700"}
    ensures r == "bg-blue-100 text-blue-700" <==> status !in {"released", "in_development", "obsolete"}
  {
    match status
    case "released" => "bg-green-100 text-green-700"
    case "in_development" => "bg-yellow-100 text-yellow-700"
    case "obsolete" => "bg-gray-100 text-gray-700"
    case _ => "bg-blue-100 text-blue-700"
  }

  /**
   * String replace with a one-character pattern: only the first occurrence
   * of `from` becomes `to` (ReplaceFirstPointwise).
   */
  function ReplaceFirst(s: string, from: char, to: char): (r: string)
    ensures |r| == |s|
  {
    if s == [] then []
    else if s[0] == from then [to] + s[1..]
    else [s[0]] + ReplaceFirst(s[1..], from, to)
  }

  /** A character occurs in a non-empty prefix iff it is the head or occurs in the rest of that prefix. */
  lemma InPrefixStep(s: string, c: char)
    requires |s| > 0
    ensures forall j :: 1 <= j <= |s| ==> (c in s[..j] <==> c == s[0] || c in s[1..][..j - 1])
  {
    forall j | 1 <= j <= |s| ensures (c in s[..j] <==> c == s[0] || c in s[1..][..j - 1]) {
      assert s[..j] == [s[0]] + s[1..][..j - 1];
    }
  }

  /** Position by position: a character becomes `to` exactly when it is the first `from`. */
  lemma {:induction false} ReplaceFirstPointwise(s: string, from: char, to: char)
    ensures forall j :: 0 <= j < |s| ==>
      ReplaceFirst(s, from, to)[j] == (if s[j] == from && from !in s[..j] then to else s[j])
  {
    if s != [] {
      InPrefixStep(s, from);
      if s[0] != from {
        ReplaceFirstPointwise(s[1..], from, to);
      }
    }
  }

  /** The status badge text: the literal with its first underscore turned into a space. */
  function BadgeText(s: PartStatus): (r: string)
    ensures |r| == |PartStatusText(s)|
  {
    ReplaceFirst(PartStatusText(s), '_', ' ')
  }

  /** What the card shows. */
  datatype CardView = CardView(
    title: string,
    partNumber: string,
    revision: string,
    badgeClass: string,
    badgeText: string,
    description: Option<string>,
    supplier: Option<string>,
    level: int,
    sortOrder: int,
    metrics: Option<BomMetrics>
  )

  /** The supplier block: shown when name or code is truthy; the code is appended in parentheses when truthy. */
  function SupplierText(name: Option<string>, code: Option<string>): Option<string>
  {
    if Truthy(name) || Truthy(code) then
      Some(Rendered(name) + (if Truthy(code) then " (" + code.value + ")" else ""))
    else
      None
  }

  /** The card for `item`; `showMetrics` defaults to true. */
  function Card(item: BomItem, showMetrics: bool := true): (c: CardView)
    ensures c.badgeClass == BadgeClass(PartStatusText(item.status))
    ensures c.badgeText == BadgeText(item.status)
    ensures c.description.Some? <==> Truthy(item.description)
    ensures c.description.Some? ==> c.description == item.description
    ensures c.supplier == SupplierText(item.supplierName, item.supplierCode)
    ensures c.metrics.Some? <==> showMetrics && item.metrics.Some?
    ensures c.metrics.Some? ==> c.metrics == item.metrics
  {
    var status := PartStatusText(item.status);
    CardView(item.partName, item.partNumber, item.revision,
             BadgeClass(status), BadgeText(item.status),
             if Truthy(item.description) then item.description else None,
             SupplierText(item.supplierName, item.supplierCode),
             item.level, item.sortOrder,
             if showMetrics && item.metrics.Some? then item.metrics else None)
  }

  /** Badge colours of the three part statuses; the default branch is never taken for them. */
  lemma BadgeClassOfTypedStatus(s: PartStatus)
    ensures BadgeClass(PartStatusText(s)) ==
      match s
      case Released => "bg-green-100 text-green-700"
      case InDevelopment => "bg-yellow-100 text-yellow-700"
      case Obsolete => "bg-gray-100 text-gray-700"
  {
  }

  /** Any other status string gets the blue default. */
  lemma BadgeClassDefault(status: string)
    requires status !in {"released", "in_development", "obsolete"}
    ensures BadgeClass(status) == "bg-blue-100 text-blue-700"
  {
  }

  /** Without the pattern the text is unchanged. */
  lemma {:induction false} ReplaceFirstAbsent(s: string, from: char, to: char)
    requires from !in s
    ensures ReplaceFirst(s, from, to) == s
  {
    if s != [] {
      assert from !in s[1..];
      ReplaceFirstAbsent(s[1..], from, to);
      assert s == [s[0]] + s[1..];
    }
  }

  /** Only the first occurrence is replaced: a second underscore survives. */
  lemma ReplaceFirstKeepsLater(s: string, from: char, to: char, i: int, j: int)
    requires from != to
    requires 0 <= i < j < |s| && s[i] == from && s[j] == from
    ensures ReplaceFirst(s, from, to)[j] == from
  {
    ReplaceFirstPointwise(s, from, to);
    assert s[..j][i] == from;
  }

  /** With no `from` before it, the first `from` is the one replaced. */
  lemma {:induction false} ReplaceFirstSplit(a: string, b: string, from: char, to: char)
    requires from !in a
    ensures ReplaceFirst(a + [from] + b, from, to) == a + [to] + b
  {
    if a != [] {
      assert (a + [from] + b)[1..] == a[1..] + [from] + b;
      assert from !in a[1..];
      ReplaceFirstSplit(a[1..], b, from, to);
      assert [a[0]] + (a[1..] + [to] + b) == a + [to] + b;
    } else {
      assert a + [from] + b == [from] + b;
    }
  }

  /** Replacing at the first occurrence `i` splices `to` in at `i`. */
  lemma ReplaceFirstAt(s: string, from: char, to: char, i: int)
    requires 0 <= i < |s| && s[i] == from && from !in s[..i]
    ensures ReplaceFirst(s, from, to) == s[..i] + [to] + s[i + 1..]
  {
    assert s == s[..i] + [from] + s[i + 1..];
    ReplaceFirstSplit(s[..i], s[i + 1..], from, to);
  }

  /** The badge texts of the three part statuses. */
  lemma BadgeTextOfTypedStatus(s: PartStatus)
    ensures BadgeText(s) ==
      match s
      case InDevelopment => "in development"
      case Released => "released"
      case Obsolete => "obsolete"
  {
    if s == InDevelopment {
      UnderscoreBadgeText(s);
    } else {
      ReplaceFirstAbsent(PartStatusText(s), '_', ' ');
    }
  }

  /** The one status literal with an underscore loses it to a space. */
  lemma UnderscoreBadgeText(s: PartStatus)
    requires s == InDevelopment
    ensures BadgeText(s) == "in development"
  {
    var a, b := "in", "development";
    assert PartStatusText(s) == a + ['_'] + b;
    ReplaceFirstSplit(a, b, '_', ' ');
    SpaceJoined(a, b);
  }

  /**
   * The literal "in development" as the join of its two words. It takes the
   * words as parameters so that the solver compares the joined sequence once
   * instead of unfolding every literal of the caller.
   */
  lemma SpaceJoined(a: string, b: string)
    requires a == "in" && b == "development"
    ensures a + [' '] + b == "in development"
  {
  }

  /** The supplier block appears iff name or code is truthy, and carries " (code)" iff the code is truthy. */
  lemma SupplierBlock(name: Option<string>, code: Option<string>)
    ensures SupplierText(name, code).Some? <==> Truthy(name) || Truthy(code)
    ensures Truthy(code) ==> SupplierText(name, code) == Some(Rendered(name) + " (" + code.value + ")")
    ensures Truthy(name) && !Truthy(code) ==> SupplierText(name, code) == name
  {
    if Truthy(code) {
      var n, c := Rendered(name), code.value;
      assert n + (" (" + c + ")") == n + " (" + c + ")";
    } else if Truthy(name) {
      assert Rendered(name) + "" == name.value;
    }
  }
}
