/** The standalone assets: a list of named values kept beside the budget
    tree, shown as a pie chart. The web service adds, removes and lists them;
    the desktop window does the same from a dialog and from the selected line
    of its asset list. */
module Assets {

  datatype Asset = Asset(name: string, value: real)

  /** No two assets share a name. */
  predicate UniqueNames(assets: seq<Asset>) {
    forall i, j | 0 <= i < j < |assets| :: assets[i].name != assets[j].name
  }

  /** Some asset carries the name. */
  predicate HasName(assets: seq<Asset>, name: string) {
    exists i | 0 <= i < |assets| :: assets[i].name == name
  }

  /** The list without the assets called `name`, in the original order. */
  function Filtered(assets: seq<Asset>, name: string): (r: seq<Asset>)
    ensures |r| <= |assets|
    ensures forall a :: a in r <==> a in assets && a.name != name
  {
    if assets == [] then []
    else if assets[0].name != name then [assets[0]] + Filtered(assets[1..], name)
    else Filtered(assets[1..], name)
  }

  /** Removing a name nobody carries changes nothing. */
  lemma {:induction false} FilteredAbsent(assets: seq<Asset>, name: string)
    requires !HasName(assets, name)
    ensures Filtered(assets, name) == assets
  {
    if assets != [] {
      assert assets[0].name != name;
      assert !HasName(assets[1..], name) by {
        forall i | 0 <= i < |assets[1..]| ensures assets[1..][i].name != name {
          assert assets[1..][i] == assets[i + 1];
        }
      }
      FilteredAbsent(assets[1..], name);
      assert assets == [assets[0]] + assets[1..];
    }
  }

  /** Filtering keeps names unique and leaves no asset with the name. */
  lemma {:induction false} FilteredUnique(assets: seq<Asset>, name: string)
    requires UniqueNames(assets)
    ensures UniqueNames(Filtered(assets, name))
    ensures !HasName(Filtered(assets, name), name)
  {
    if assets != [] {
      var rest := assets[1..];
      assert UniqueNames(rest) by {
        forall i, j | 0 <= i < j < |rest| ensures rest[i].name != rest[j].name {
          assert rest[i] == assets[i + 1] && rest[j] == assets[j + 1];
        }
      }
      FilteredUnique(rest, name);
      if assets[0].name != name {
        assert forall k | 0 <= k < |rest| :: rest[k].name != assets[0].name by {
          forall k | 0 <= k < |rest| ensures rest[k].name != assets[0].name {
            assert rest[k] == assets[k + 1];
          }
        }
        ConsUnique(assets[0], rest, Filtered(rest, name), name);
      }
    }
  }

  lemma ConsUnique(a: Asset, rest: seq<Asset>, tail: seq<Asset>, name: string)
    requires UniqueNames(tail) && !HasName(tail, name) && a.name != name
    requires forall x | x in tail :: x in rest
    requires forall k | 0 <= k < |rest| :: rest[k].name != a.name
    ensures UniqueNames([a] + tail) && !HasName([a] + tail, name)
  {
    var r := [a] + tail;
    forall j | 0 < j < |r| ensures r[j].name != a.name && r[j].name != name {
      assert r[j] == tail[j - 1] && r[j] in tail;
    }
    forall i, j | 0 < i < j < |r| ensures r[i].name != r[j].name {
      assert r[i] == tail[i - 1] && r[j] == tail[j - 1];
    }
  }

  /** Adding an asset under a fresh name and then removing that name gives
      back the list as it was. */
  lemma AddThenRemove(assets: seq<Asset>, name: string, value: real)
    requires !HasName(assets, name)
    ensures Filtered(assets + [Asset(name, value)], name) == assets
  {
    FilteredSnoc(assets, Asset(name, value), name);
    FilteredAbsent(assets, name);
  }

  lemma {:induction false} FilteredSnoc(assets: seq<Asset>, a: Asset, name: string)
    ensures Filtered(assets + [a], name) == Filtered(assets, name) + Filtered([a], name)
  {
    if assets == [] {
      assert assets + [a] == [a];
    } else {
      assert (assets + [a])[0] == assets[0] && (assets + [a])[1..] == assets[1..] + [a];
      FilteredSnoc(assets[1..], a, name);
    }
  }

  /** Adding under a fresh name keeps names unique. */
  lemma AppendUnique(assets: seq<Asset>, a: Asset)
    requires UniqueNames(assets) && !HasName(assets, a.name)
    ensures UniqueNames(assets + [a])
  {
    var r := assets + [a];
    forall i, j | 0 <= i < j < |r| ensures r[i].name != r[j].name {
      if j == |assets| {
        assert r[i] == assets[i];
      }
    }
  }

  // ----- the pie chart -----

  /** The pie's labels and values: one slice per asset, in list order, or a
      single placeholder slice of weight one when there are no assets. */
  function PieData(assets: seq<Asset>): (r: (seq<string>, seq<real>))
    ensures assets == [] ==> r == (["No assets yet"], [1.0])
    ensures assets != [] ==> |r.0| == |assets| && |r.1| == |assets|
    ensures assets != [] ==> forall i | 0 <= i < |assets| :: r.0[i] == assets[i].name && r.1[i] == assets[i].value
  {
    if assets == [] then (["No assets yet"], [1.0]) else (AssetNames(assets), AssetValues(assets))
  }

  function AssetNames(assets: seq<Asset>): (r: seq<string>)
    ensures |r| == |assets| && forall i | 0 <= i < |assets| :: r[i] == assets[i].name
  {
    if assets == [] then [] else [assets[0].name] + AssetNames(assets[1..])
  }

  function AssetValues(assets: seq<Asset>): (r: seq<real>)
    ensures |r| == |assets| && forall i | 0 <= i < |assets| :: r[i] == assets[i].value
  {
    if assets == [] then [] else [assets[0].value] + AssetValues(assets[1..])
  }

  // ----- the desktop asset list -----

  /** The characters Python's `str.strip()` removes. */
  predicate IsSpace(c: char) {
    || c == ' ' || c == '\t' || c == '\n' || c == '\r' || c == '\U{000B}' || c == '\U{000C}'
    || ('\U{001C}' <= c <= '\U{001F}') || c == '\U{0085}' || c == '\U{00A0}' || c == '\U{1680}'
    || ('\U{2000}' <= c <= '\U{200A}') || c == '\U{2028}' || c == '\U{2029}' || c == '\U{202F}'
    || c == '\U{205F}' || c == '\U{3000}'
  }

  /** Drops the leading white space. */
  function StripLeft(s: string): (r: string)
    ensures |r| <= |s| && r == s[|s| - |r|..]
    ensures r == [] || !IsSpace(r[0])
    ensures forall k | 0 <= k < |s| - |r| :: IsSpace(s[k])
  {
    if s != [] && IsSpace(s[0]) then StripLeft(s[1..]) else s
  }

  /** Drops the trailing white space. */
  function StripRight(s: string): (r: string)
    ensures |r| <= |s| && r == s[..|r|]
    ensures r == [] || !IsSpace(r[|r| - 1])
    ensures forall k | |r| <= k < |s| :: IsSpace(s[k])
  {
    if s != [] && IsSpace(s[|s| - 1]) then StripRight(s[..|s| - 1]) else s
  }

  /** Text made of white space only. */
  predicate AllSpace(t: string) {
    forall k | 0 <= k < |t| :: IsSpace(t[k])
  }

  /** `str.strip()`: the text between the leading and the trailing white
      space. */
  function Strip(s: string): (r: string)
    ensures r == [] || (!IsSpace(r[0]) && !IsSpace(r[|r| - 1]))
    ensures exists i, j | 0 <= i <= j <= |s| :: r == s[i..j] && AllSpace(s[..i]) && AllSpace(s[j..])
  {
    var left := StripLeft(s);
    var r := StripRight(left);
    var i := |s| - |left|;
    var j := i + |r|;
    assert r == s[i..j];
    assert AllSpace(s[..i]);
    assert AllSpace(s[j..]) by {
      forall k | 0 <= k < |s[j..]| ensures IsSpace(s[j..][k]) {
        assert s[j..][k] == left[|r| + k];
      }
    }
    r
  }

  /** Text that starts and ends with something other than white space. */
  predicate StripFixed(s: string) {
    s == [] || (!IsSpace(s[0]) && !IsSpace(s[|s| - 1]))
  }

  /** Text that starts and ends with something other than white space is
      its own stripped form. */
  lemma StripStripped(s: string)
    requires s == [] || (!IsSpace(s[0]) && !IsSpace(s[|s| - 1]))
    ensures Strip(s) == s
  {
  }

  /** `text.split(":")[0]`: everything before the first colon. */
  function BeforeColon(s: string): (r: string)
    ensures |r| <= |s| && r == s[..|r|] && ':' !in r
    ensures |r| < |s| ==> s[|r|] == ':'
  {
    if s == [] || s[0] == ':' then [] else [s[0]] + BeforeColon(s[1..])
  }

  /** The line shown for an asset: its name, a colon and the value as
      formatted text (`shown`). */
  function ItemText(a: Asset, shown: string): string {
    a.name + ": $" + shown
  }

  /** The name the window reads back from a line of the asset list. */
  function ItemName(text: string): string {
    Strip(BeforeColon(text))
  }

  /** A stripped name without a colon is read back exactly. */
  lemma ItemNameRecovers(a: Asset, shown: string)
    requires ':' !in a.name && (a.name == [] || (!IsSpace(a.name[0]) && !IsSpace(a.name[|a.name| - 1])))
    ensures ItemName(ItemText(a, shown)) == a.name
  {
    var text := ItemText(a, shown);
    BeforeColonPrefix(a.name, ": $" + shown);
    assert text == a.name + (": $" + shown);
    StripStripped(a.name);
  }

  lemma {:induction false} BeforeColonPrefix(name: string, rest: string)
    requires ':' !in name && rest != [] && rest[0] == ':'
    ensures BeforeColon(name + rest) == name
  {
    if name == [] {
      assert name + rest == rest;
    } else {
      assert (name + rest)[0] == name[0] && (name + rest)[1..] == name[1..] + rest;
      BeforeColonPrefix(name[1..], rest);
      assert name == [name[0]] + name[1..];
    }
  }

  /** Removing the selected line as the window does: read the name back from
      the line's text, then drop every asset with that name. */
  function SelectedRemovedAsWritten(assets: seq<Asset>, i: nat, shown: string): seq<Asset>
    requires i < |assets|
  {
    Filtered(assets, ItemName(ItemText(assets[i], shown)))
  }

  /** A name is read back only up to its first colon. */
  lemma ColonCut(prefix: string, suffix: string, value: real, shown: string)
    requires ':' !in prefix && (prefix == [] || (!IsSpace(prefix[0]) && !IsSpace(prefix[|prefix| - 1])))
    ensures ItemName(ItemText(Asset(prefix + ":" + suffix, value), shown)) == prefix
  {
    var rest := ":" + suffix + ": $" + shown;
    assert ItemText(Asset(prefix + ":" + suffix, value), shown) == prefix + rest;
    BeforeColonPrefix(prefix, rest);
    StripStripped(prefix);
  }

  /** A name with a colon is read back cut short: the selected asset stays. */
  lemma ColonNameSurvives(shown: string)
    ensures SelectedRemovedAsWritten([Asset("A:B", 1.0)], 0, shown) == [Asset("A:B", 1.0)]
  {
    ColonNameReadShort(shown);
    ShortNameMisses();
  }

  lemma ColonNameReadShort(shown: string)
    ensures ItemName(ItemText(Asset("A:B", 1.0), shown)) == "A"
  {
    var prefix := "A";
    assert prefix + ":" + "B" == "A:B";
    assert !IsSpace(prefix[0]);
    ColonCut(prefix, "B", 1.0, shown);
  }

  lemma ShortNameMisses()
    ensures Filtered([Asset("A:B", 1.0)], "A") == [Asset("A:B", 1.0)]
  {
    var single := [Asset("A:B", 1.0)];
    assert single[0].name != "A" by {
      assert |single[0].name| == 3;
    }
    FilteredAbsent(single, "A");
  }

  /** Removing the selected entry by the name it holds. */
  function SelectedRemoved(assets: seq<Asset>, i: nat): (r: seq<Asset>)
    requires i < |assets|
    ensures assets[i] !in r
    ensures forall a | a in assets && a.name != assets[i].name :: a in r
  {
    Filtered(assets, assets[i].name)
  }

  /** With unique names exactly one entry goes, and the others keep their
      order. */
  lemma SelectedRemovedExact(assets: seq<Asset>, i: nat)
    requires i < |assets| && UniqueNames(assets)
    ensures SelectedRemoved(assets, i) == assets[..i] + assets[i + 1..]
  {
    var before, after := assets[..i], assets[i + 1..];
    OthersNamedElse(assets, i);
    assert assets == before + [assets[i]] + after;
    FilteredAround(before, assets[i], after);
  }

  /** Dropping the one entry of its name between two lists without it. */
  lemma FilteredAround(before: seq<Asset>, a: Asset, after: seq<Asset>)
    requires !HasName(before, a.name) && !HasName(after, a.name)
    ensures Filtered(before + [a] + after, a.name) == before + after
  {
    assert Filtered([a], a.name) == [];
    assert Filtered(before + [a], a.name) == before by {
      FilteredSplit(before, [a], a.name);
      FilteredAbsent(before, a.name);
    }
    assert Filtered(after, a.name) == after by {
      FilteredAbsent(after, a.name);
    }
    FilteredSplit(before + [a], after, a.name);
  }

  /** With unique names no other entry carries the name of entry `i`. */
  lemma OthersNamedElse(assets: seq<Asset>, i: nat)
    requires i < |assets| && UniqueNames(assets)
    ensures !HasName(assets[..i], assets[i].name) && !HasName(assets[i + 1..], assets[i].name)
  {
    var name := assets[i].name;
    assert !HasName(assets[..i], name) by {
      forall k | 0 <= k < i ensures assets[..i][k].name != name {}
    }
    var after := assets[i + 1..];
    assert !HasName(after, name) by {
      forall k | 0 <= k < |after| ensures after[k].name != name {
        assert after[k] == assets[i + 1 + k];
      }
    }
  }

  lemma {:induction false} FilteredSplit(a: seq<Asset>, b: seq<Asset>, name: string)
    ensures Filtered(a + b, name) == Filtered(a, name) + Filtered(b, name)
  {
    if a == [] {
      assert a + b == b;
    } else {
      assert (a + b)[0] == a[0] && (a + b)[1..] == a[1..] + b;
      FilteredSplit(a[1..], b, name);
    }
  }

  /** The window's removal agrees with the intended one whenever the
      selected name is stripped and has no colon. */
  lemma AsWrittenAgrees(assets: seq<Asset>, i: nat, shown: string)
    requires i < |assets| && ':' !in assets[i].name
    requires assets[i].name == [] || (!IsSpace(assets[i].name[0]) && !IsSpace(assets[i].name[|assets[i].name| - 1]))
    ensures SelectedRemovedAsWritten(assets, i, shown) == SelectedRemoved(assets, i)
  {
    ItemNameRecovers(assets[i], shown);
  }
}
