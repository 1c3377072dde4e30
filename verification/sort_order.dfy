/** The `"column:direction"` order token of the list search and the column sort it
    requests from the platform search. */
module SortOrder {

  /** `s.split(sep)` for a one-character separator: the pieces between separators,
      empty pieces included, always at least one. */
  function Split(s: string, sep: char): (parts: seq<string>)
    ensures |parts| >= 1
    ensures forall i :: 0 <= i < |parts| ==> sep !in parts[i]
    decreases |s|
  {
    if s == [] then [""]
    else
      var rest := Split(s[1..], sep);
      if s[0] == sep then [""] + rest else [[s[0]] + rest[0]] + rest[1..]
  }

  /** `parts.join(sep)`. */
  function Join(parts: seq<string>, sep: char): string
    requires |parts| >= 1
    decreases |parts|
  {
    if |parts| == 1 then parts[0] else parts[0] + [sep] + Join(parts[1..], sep)
  }

  /** Splitting and joining again gives the original string. */
  lemma {:induction false} JoinSplit(s: string, sep: char)
    ensures Join(Split(s, sep), sep) == s
    decreases |s|
  {
    if s != [] {
      var rest := Split(s[1..], sep);
      JoinSplit(s[1..], sep);
      if s[0] == sep {
        assert Split(s, sep)[1..] == rest;
      } else {
        var parts := Split(s, sep);
        if |rest| == 1 {
          assert parts == [[s[0]] + rest[0]];
        } else {
          assert parts[1..] == rest[1..];
          assert Join(rest, sep) == rest[0] + [sep] + Join(rest[1..], sep);
        }
      }
    }
  }

  /** Splitting `a + [sep] + b` where `a` holds no separator yields `a` and then the
      pieces of `b`. */
  lemma {:induction false} SplitAfterFirst(a: string, b: string, sep: char)
    requires sep !in a
    ensures Split(a + [sep] + b, sep) == [a] + Split(b, sep)
    decreases |a|
  {
    var s := a + [sep] + b;
    if a == [] {
      assert s[0] == sep && s[1..] == b;
    } else {
      assert s[0] == a[0] && s[1..] == a[1..] + [sep] + b;
      SplitAfterFirst(a[1..], b, sep);
      assert [a[0]] + a[1..] == a;
    }
  }

  /** A string without separator is a single piece. */
  lemma {:induction false} SplitWithoutSeparator(s: string, sep: char)
    requires sep !in s
    ensures Split(s, sep) == [s]
    decreases |s|
  {
    if s != [] {
      SplitWithoutSeparator(s[1..], sep);
      assert [s[0]] + s[1..] == s;
    }
  }

  /** The first piece of a split is the separator-free prefix of the string, ending at
      the first separator or at the end. */
  lemma FirstPiece(s: string, sep: char)
    ensures var p := Split(s, sep)[0];
      |p| <= |s| && s[..|p|] == p && (|p| == |s| || s[|p|] == sep)
  {
    var parts := Split(s, sep);
    JoinSplit(s, sep);
    if |parts| > 1 {
      assert s == parts[0] + [sep] + Join(parts[1..], sep);
    }
  }

  /** What the order token asks for: a column name and whether to sort descending. */
  datatype Order = Order(column: string, descending: bool)

  /** The tokens of an order parameter; an absent (empty) order has none. */
  function Tokens(order: string): seq<string> {
    if order == "" then [] else Split(order, ':')
  }

  /** The column is the first token, or `name` when it is missing or empty; the
      direction is the second token, or `ASC`; only `DESC` sorts descending. */
  function ParseOrder(order: string): (o: Order)
    ensures o.column != "" && ':' !in o.column
  {
    var tokens := Tokens(order);
    var column := if |tokens| > 0 && tokens[0] != "" then tokens[0] else "name";
    var direction := if |tokens| > 1 && tokens[1] != "" then tokens[1] else "ASC";
    Order(column, direction == "DESC")
  }

  /** An absent order sorts ascending by name. */
  lemma DefaultOrder()
    ensures ParseOrder("") == Order("name", false)
  {
  }

  /** The column is the text before the first `:` when that is non-empty, and `name`
      otherwise. */
  lemma ParseOrderColumn(order: string)
    ensures order == "" || order[0] == ':' ==> ParseOrder(order).column == "name"
    ensures order != "" && order[0] != ':' ==>
      var c := ParseOrder(order).column;
      && ':' !in c && |c| <= |order| && order[..|c|] == c
      && (|c| == |order| || order[|c|] == ':')
  {
    if order != "" {
      FirstPiece(order, ':');
    }
  }

  /** `order` is `head`, then `:DESC`, then nothing or `:` and anything. */
  predicate DescendingToken(order: string, head: string, rest: string) {
    ':' !in head && (order == head + ":DESC" || order == head + ":DESC:" + rest)
  }

  /** A descending order has `DESC` as its second `:`-separated token. */
  lemma ParseOrderDescendingSound(order: string)
    requires ParseOrder(order).descending
    ensures exists head: string, rest: string :: DescendingToken(order, head, rest)
  {
    var tokens := Split(order, ':');
    JoinSplit(order, ':');
    var head := tokens[0];
    assert tokens[1] == "DESC";
    if |tokens| == 2 {
      assert Join(tokens, ':') == head + [':'] + "DESC";
      assert order == head + ":DESC";
      assert DescendingToken(order, head, "");
    } else {
      var rest := Join(tokens[2..], ':');
      assert Join(tokens[1..], ':') == "DESC" + [':'] + rest;
      assert order == head + ":DESC:" + rest;
      assert DescendingToken(order, head, rest);
    }
  }

  /** A second token `DESC` selects descending order, whatever follows a third `:`. */
  lemma ParseOrderDescendingComplete(order: string, head: string, rest: string)
    requires DescendingToken(order, head, rest)
    ensures ParseOrder(order).descending
  {
    if order == head + ":DESC" {
      DescendingLast(head);
    } else {
      DescendingMiddle(head, rest);
    }
  }

  lemma DescendingLast(head: string)
    requires ':' !in head
    ensures ParseOrder(head + ":DESC").descending
  {
    SplitAfterFirst(head, "DESC", ':');
    SplitWithoutSeparator("DESC", ':');
    assert head + [':'] + "DESC" == head + ":DESC";
  }

  lemma DescendingMiddle(head: string, rest: string)
    requires ':' !in head
    ensures ParseOrder(head + ":DESC:" + rest).descending
  {
    SplitAfterFirst(head, "DESC:" + rest, ':');
    SplitAfterFirst("DESC", rest, ':');
    assert head + [':'] + ("DESC:" + rest) == head + ":DESC:" + rest;
    assert "DESC" + [':'] + rest == "DESC:" + rest;
  }

  /** The nine keys of the column set the search retrieves. */
  const Columns: set<string> := {"internalid", "templateid", "name", "description",
    "owner", "scope", "type", "created", "lastmodified"}

  /** The property names every plain object inherits from `Object.prototype` in
      ECMAScript (section 20.1.3 of ECMA-262). Looking one of them up on the column
      set yields a truthy value that is not a search column. An engine whose objects
      inherit further names (Rhino's `toSource`, for one) throws for those as well;
      they are not listed here. */
  const PrototypeKeys: set<string> := {"constructor", "hasOwnProperty", "isPrototypeOf",
    "propertyIsEnumerable", "toLocaleString", "toString", "valueOf", "__proto__",
    "__defineGetter__", "__defineSetter__", "__lookupGetter__", "__lookupSetter__"}

  /** What the order token does to the search columns; `Throws` is the TypeError of
      calling `setSort` on something that is not a column. */
  datatype ColumnSort = Sorted(column: string, descending: bool) | Unsorted | Throws

  /** The source as written: `columns[c] && columns[c].setSort(...)` also finds inherited
      properties, and calling `setSort` on one of those throws a TypeError. */
  function ColumnSortAsWritten(order: string): (r: ColumnSort)
    ensures r == Throws <==> ParseOrder(order).column in PrototypeKeys
    ensures r.Sorted? <==> ParseOrder(order).column in Columns
    ensures r.Sorted? ==> r == Sorted(ParseOrder(order).column, ParseOrder(order).descending)
  {
    var o := ParseOrder(order);
    if o.column in Columns then Sorted(o.column, o.descending)
    else if o.column in PrototypeKeys then Throws
    else Unsorted
  }

  /** The order `toString:ASC` makes the search throw instead of leaving the columns
      unsorted. */
  lemma ColumnSortAsWrittenThrows()
    ensures ParseOrder("toString:ASC").column !in Columns
    ensures ColumnSortAsWritten("toString:ASC") == Throws
  {
    ParseToStringOrder();
    ToStringInherited();
    ToStringNotColumn();
  }

  // The two membership facts are proved on their own, away from the unfolding of the
  // order token, which keeps the lemma above cheap.

  lemma ToStringInherited()
    ensures "toString" in PrototypeKeys
  {
  }

  lemma ToStringNotColumn()
    ensures "toString" !in Columns
  {
  }

  lemma ParseToStringOrder()
    ensures ParseOrder("toString:ASC") == Order("toString", false)
  {
    ParseTwoTokens("toString", "ASC");
    assert "toString" + [':'] + "ASC" == "toString:ASC";
  }

  /** A column and a direction joined by `:` read back as that column and direction. */
  lemma ParseTwoTokens(column: string, direction: string)
    requires column != "" && direction != "" && ':' !in column && ':' !in direction
    ensures ParseOrder(column + [':'] + direction) == Order(column, direction == "DESC")
  {
    SplitAfterFirst(column, direction, ':');
    SplitWithoutSeparator(direction, ':');
  }

  /** The sort as evidently intended: applied to one of the nine columns only, and
      otherwise no sort at all. */
  function ColumnSortOf(order: string): (r: ColumnSort)
    ensures r != Throws
    ensures r.Sorted? <==> ParseOrder(order).column in Columns
    ensures r.Sorted? ==> r.column == ParseOrder(order).column && r.column in Columns
    ensures r.Sorted? ==> r.descending == ParseOrder(order).descending
  {
    var o := ParseOrder(order);
    if o.column in Columns then Sorted(o.column, o.descending) else Unsorted
  }

  /** Both agree on every order that names one of the nine columns or no column at all. */
  lemma ColumnSortAgrees(order: string)
    requires ParseOrder(order).column !in PrototypeKeys
    ensures ColumnSortAsWritten(order) == ColumnSortOf(order)
  {
  }

  /** An absent order sorts the `name` column ascending. */
  lemma DefaultColumnSort()
    ensures ColumnSortOf("") == Sorted("name", false)
  {
  }
}
