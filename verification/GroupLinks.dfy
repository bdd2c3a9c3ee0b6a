/** The link table of types/GroupLinks.hpp: flat arrays of links, one row a group, and a square of
    flags that says at once whether two groups are linked. */
module GroupLinks {

  const MAX_GROUPS := 4000
  const MAX_LINKS := 400

  predicate Distinct(s: seq<int>) {
    forall i, j :: 0 <= i < j < |s| ==> s[i] != s[j]
  }

  /** The links of a group: itself first, then groups of the table, none twice. */
  predicate IsLinks(s: seq<int>, g: int) {
    && 1 <= |s| <= MAX_LINKS && s[0] == g && Distinct(s)
    && forall i :: 0 <= i < |s| ==> 0 <= s[i] < MAX_GROUPS
  }

  lemma LinksExtended(s: seq<int>, g: int, value: int)
    requires IsLinks(s, g) && value !in s && |s| < MAX_LINKS && 0 <= value < MAX_GROUPS
    ensures IsLinks(s + [value], g)
  {
  }

  /** Entry (g, v) of the square. */
  predicate At(flags: seq<bool>, g: nat, v: nat)
    requires |flags| == MAX_GROUPS * MAX_GROUPS && g < MAX_GROUPS && v < MAX_GROUPS
  {
    flags[g * MAX_GROUPS + v]
  }

  lemma OneFlag(before: seq<bool>, after: seq<bool>, group: nat, value: nat, b: bool)
    requires |before| == MAX_GROUPS * MAX_GROUPS && group < MAX_GROUPS && value < MAX_GROUPS
    requires after == before[group * MAX_GROUPS + value := b]
    ensures forall g: nat, v: nat :: g < MAX_GROUPS && v < MAX_GROUPS ==>
              At(after, g, v) == if g == group && v == value then b else At(before, g, v)
  {
  }

  /** Flag (g, v) says whether v is in row g of the table. */
  predicate FlagOf(table: seq<seq<int>>, flags: seq<bool>, g: nat, v: nat)
    requires |flags| == MAX_GROUPS * MAX_GROUPS && g < MAX_GROUPS && v < MAX_GROUPS
  {
    At(flags, g, v) <==> g < |table| && v in table[g]
  }

  ghost predicate FlagsOf(table: seq<seq<int>>, flags: seq<bool>) {
    && |flags| == MAX_GROUPS * MAX_GROUPS
    && forall g: nat, v: nat :: g < MAX_GROUPS && v < MAX_GROUPS ==> FlagOf(table, flags, g, v)
  }

  class GroupLinks {
    var numGroups: nat
    const groupLinks: array<int>
    const groupBools: array<bool>
    const groupAmounts: array<int>

    predicate Allocated()
      reads this
    {
      && numGroups <= MAX_GROUPS
      && groupLinks.Length == MAX_GROUPS * MAX_LINKS
      && groupBools.Length == MAX_GROUPS * MAX_GROUPS
      && groupAmounts.Length == MAX_GROUPS && groupLinks != groupAmounts
    }

    /** The first n links of group g. */
    function Row(g: nat, n: nat): (s: seq<int>)
      requires Allocated() && g < MAX_GROUPS && n <= MAX_LINKS
      reads this, groupLinks
      ensures |s| == n
    {
      groupLinks[g * MAX_LINKS..g * MAX_LINKS + n]
    }

    predicate AmountsFit()
      requires Allocated()
      reads this, groupAmounts
    {
      forall g :: 0 <= g < numGroups ==> 1 <= groupAmounts[g] <= MAX_LINKS
    }

    function Links(g: nat): (s: seq<int>)
      requires Allocated() && AmountsFit() && g < numGroups
      reads this, groupLinks, groupAmounts
      ensures |s| == groupAmounts[g]
    {
      Row(g, groupAmounts[g])
    }

    /** The table as a list of duplicate-free lists. */
    ghost function Table(): (t: seq<seq<int>>)
      requires Allocated() && AmountsFit()
      reads this, groupLinks, groupAmounts
      ensures |t| == numGroups && forall g :: 0 <= g < numGroups ==> t[g] == Links(g)
    {
      var n, l, a := numGroups, groupLinks, groupAmounts;
      seq(n, g requires 0 <= g < n && n <= MAX_GROUPS && l.Length == MAX_GROUPS * MAX_LINKS && a.Length == MAX_GROUPS
                        && 1 <= a[g] <= MAX_LINKS reads l, a => l[g * MAX_LINKS..g * MAX_LINKS + a[g]])
    }

    ghost predicate Valid()
      reads this, groupLinks, groupAmounts, groupBools
    {
      && Allocated() && AmountsFit()
      && (forall g: nat :: g < numGroups ==> IsLinks(Links(g), g))
      && FlagsOf(Table(), groupBools[..])
    }

    /** Setting flag (group, value) and appending the link to its row keeps the flags right; table
        and flags are those before. */
    lemma FlagsFollow(table: seq<seq<int>>, flags: seq<bool>, group: nat, value: nat)
      requires Allocated() && AmountsFit() && FlagsOf(table, flags)
      requires |table| <= numGroups && group < numGroups && value < MAX_GROUPS
      requires forall g: nat :: g < numGroups && g != group ==> g < |table| && Links(g) == table[g]
      requires Links(group) == (if group < |table| then table[group] else []) + [value]
      requires groupBools[..] == flags[group * MAX_GROUPS + value := true]
      ensures FlagsOf(Table(), groupBools[..])
    {
      OneFlag(flags, groupBools[..], group, value, true);
      forall g: nat, v: nat | g < MAX_GROUPS && v < MAX_GROUPS
        ensures FlagOf(Table(), groupBools[..], g, v)
      {
        assert FlagOf(table, flags, g, v);
      }
    }

    constructor ()
      ensures Valid() && Table() == []
      ensures fresh(groupLinks) && fresh(groupBools) && fresh(groupAmounts)
    {
      numGroups := 0;
      groupLinks := new int[MAX_GROUPS * MAX_LINKS];
      groupBools := new bool[MAX_GROUPS * MAX_GROUPS](_ => false);
      groupAmounts := new int[MAX_GROUPS];
    }

    /** False, and no change, when the table is full; otherwise a new group linked to itself. */
    method NewGroup() returns (ok: bool)
      requires Valid()
      modifies `numGroups, groupLinks, groupBools, groupAmounts
      ensures Valid()
      ensures ok == (|old(Table())| < MAX_GROUPS)
      ensures Table() == if ok then old(Table()) + [[|old(Table())|]] else old(Table())
    {
      if numGroups >= MAX_GROUPS {
        return false;
      }
      ghost var table, flags, g0 := Table(), groupBools[..], numGroups;
      groupAmounts[numGroups] := 1;
      groupLinks[numGroups * MAX_LINKS] := numGroups;
      groupBools[numGroups * MAX_GROUPS + numGroups] := true;
      numGroups := numGroups + 1;
      TableGrown(table);
      FlagsFollow(table, flags, g0, g0);
      return true;
    }

    lemma TableGrown(table: seq<seq<int>>)
      requires Allocated() && numGroups == |table| + 1 && groupAmounts[|table|] == 1 && Row(|table|, 1) == [|table|]
      requires forall g: nat :: g < |table| ==> IsLinks(table[g], g)
      requires forall g: nat :: g < |table| ==>
                 |table[g]| <= MAX_LINKS && groupAmounts[g] == |table[g]| && Row(g, |table[g]|) == table[g]
      ensures AmountsFit() && forall g: nat :: g < numGroups ==> IsLinks(Links(g), g)
      ensures Table() == table + [[|table|]]
    {
      assert forall g: nat :: g < |table| ==> IsLinks(table[g], g);
      assert IsLinks([|table|], |table|);
    }

    /** False, and no change, when the link exists or the row is full. */
    method AddLink(group: nat, value: nat) returns (ok: bool)
      requires Valid() && group < numGroups && value < MAX_GROUPS
      modifies groupLinks, groupBools, groupAmounts
      ensures Valid()
      ensures ok == (value !in old(Table())[group] && |old(Table())[group]| < MAX_LINKS)
      ensures Table() == if ok then old(Table())[group := old(Table())[group] + [value]] else old(Table())
    {
      assert FlagOf(Table(), groupBools[..], group, value);
      if groupBools[group * MAX_GROUPS + value] {
        return false;
      }
      if groupAmounts[group] >= MAX_LINKS {
        return false;
      } else {
        StoreLink(group, value);
        return true;
      }
    }

    method StoreLink(group: nat, value: nat)
      requires Valid() && group < numGroups && value < MAX_GROUPS && value !in Links(group)
                && groupAmounts[group] < MAX_LINKS
      modifies groupLinks, groupBools, groupAmounts
      ensures Valid()
      ensures Table() == old(Table())[group := old(Table())[group] + [value]]
    {
      ghost var table, flags := Table(), groupBools[..];
      groupLinks[group * MAX_LINKS + groupAmounts[group]] := value;
      groupBools[group * MAX_GROUPS + value] := true;
      groupAmounts[group] := groupAmounts[group] + 1;
      RowAppended(table, group, value);
      FlagsFollow(table, flags, group, value);
    }

    lemma RowAppended(table: seq<seq<int>>, group: nat, value: nat)
      requires Allocated() && group < numGroups == |table| && value < MAX_GROUPS
                && groupAmounts[group] == |table[group]| + 1
      requires forall g: nat :: g < numGroups ==> IsLinks(table[g], g)
      requires value !in table[group] && |table[group]| < MAX_LINKS
      requires forall g: nat :: g < numGroups && g != group ==>
                 |table[g]| <= MAX_LINKS && groupAmounts[g] == |table[g]| && Row(g, |table[g]|) == table[g]
      requires Row(group, |table[group]| + 1) == table[group] + [value]
      ensures AmountsFit() && forall g: nat :: g < numGroups ==> IsLinks(Links(g), g)
      ensures Table() == table[group := table[group] + [value]]
    {
      LinksExtended(table[group], group, value);
      assert forall g: nat :: g < numGroups ==> IsLinks(table[g], g);
    }

    /** Clears the flags of the links of a group from the given one on. */
    method ClearFlags(group: nat, from: nat)
      requires Allocated() && AmountsFit() && group < numGroups && from <= groupAmounts[group]
      requires IsLinks(Links(group), group)
      modifies groupBools
      ensures forall g: nat, v: nat :: g < MAX_GROUPS && v < MAX_GROUPS ==>
                At(groupBools[..], g, v)
                == (At(old(groupBools[..]), g, v) && !(g == group && v in Links(group)[from..]))
    {
      ghost var row, flags := Links(group), groupBools[..];
      for link := from to groupAmounts[group]
        invariant forall g: nat, v: nat :: g < MAX_GROUPS && v < MAX_GROUPS ==>
                    At(groupBools[..], g, v) == (At(flags, g, v) && !(g == group && v in row[from..link]))
      {
        ghost var before := groupBools[..];
        assert groupLinks[group * MAX_LINKS + link] == row[link];
        assert row[from..link + 1] == row[from..link] + [row[link]];
        groupBools[group * MAX_GROUPS + groupLinks[group * MAX_LINKS + link]] := false;
        OneFlag(before, groupBools[..], group, row[link], false);
      }
      assert row[from..groupAmounts[group]] == row[from..];
    }

    /** Keeps of a group only its link to itself. */
    method ClearHigh(group: nat)
      requires Valid() && group < numGroups
      modifies groupBools, groupAmounts
      ensures Valid()
      ensures Table() == old(Table())[group := [group]]
    {
      ghost var table, flags := Table(), groupBools[..];
      ClearFlags(group, 1);
      groupAmounts[group] := 1;
      assert Links(group) == [group];
      assert forall g: nat :: g < numGroups && g != group ==> Links(g) == table[g];
      OnlyItself(table, flags, group);
    }

    lemma OnlyItself(table: seq<seq<int>>, flags: seq<bool>, group: nat)
      requires Allocated() && AmountsFit() && FlagsOf(table, flags) && group < numGroups == |table|
      requires IsLinks(table[group], group) && Table() == table[group := [group]]
      requires forall g: nat, v: nat :: g < MAX_GROUPS && v < MAX_GROUPS ==>
                 At(groupBools[..], g, v) == (At(flags, g, v) && !(g == group && v in table[group][1..]))
      ensures FlagsOf(Table(), groupBools[..])
    {
      assert table[group] == [group] + table[group][1..];
      forall g: nat, v: nat | g < MAX_GROUPS && v < MAX_GROUPS
        ensures FlagOf(Table(), groupBools[..], g, v)
      {
        assert FlagOf(table, flags, g, v);
      }
    }

    /** Empties the table. */
    method FullReset()
      requires Valid()
      modifies `numGroups, groupBools
      ensures Valid() && Table() == []
    {
      ghost var table, flags := Table(), groupBools[..];
      for group := 0 to numGroups
        invariant Allocated() && AmountsFit() && numGroups == |table| && Table() == table
        invariant forall g: nat, v: nat :: g < MAX_GROUPS && v < MAX_GROUPS ==>
                    At(groupBools[..], g, v) == (g >= group && At(flags, g, v))
      {
        assert Links(group) == table[group];
        ClearFlags(group, 0);
        RowCleared(table, flags, group);
      }
      numGroups := 0;
      forall g: nat, v: nat | g < MAX_GROUPS && v < MAX_GROUPS
        ensures FlagOf([], groupBools[..], g, v)
      {
        assert FlagOf(table, flags, g, v);
        assert At(groupBools[..], g, v) == (g >= |table| && At(flags, g, v));
      }
    }

    lemma RowCleared(table: seq<seq<int>>, flags: seq<bool>, group: nat)
      requires Allocated() && FlagsOf(table, flags) && group < |table| <= MAX_GROUPS
      requires forall g: nat, v: nat :: g < MAX_GROUPS && v < MAX_GROUPS ==>
                 At(groupBools[..], g, v) == (g >= group && At(flags, g, v) && !(g == group && v in table[group][0..]))
      ensures forall g: nat, v: nat :: g < MAX_GROUPS && v < MAX_GROUPS ==>
                At(groupBools[..], g, v) == (g >= group + 1 && At(flags, g, v))
    {
      assert table[group][0..] == table[group];
      forall g: nat, v: nat | g < MAX_GROUPS && v < MAX_GROUPS
        ensures At(groupBools[..], g, v) == (g >= group + 1 && At(flags, g, v))
      {
        assert FlagOf(table, flags, g, v);
      }
    }
  }
}
