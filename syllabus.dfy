/** The syllabus checklist as values: input trimming, the toggle and delete
    transformations of the item list, and the progress percentage. The
    in-place updates themselves are methods of `App.AppState`. */
module Syllabus {

  /** One checklist entry. */
  datatype Item = Item(id: int, text: string, done: bool)

  /** The characters `String.prototype.trim` removes: ECMAScript WhiteSpace
      (tab, vertical tab, form feed, space, no-break space, the byte order
      mark and the space separators) and LineTerminator. */
  predicate IsWhitespace(c: char) {
    || c == '\t' || c == '\U{000B}' || c == '\U{000C}' || c == ' ' || c == '\U{00A0}' || c == '\U{FEFF}'
    || c == '\U{1680}' || ('\U{2000}' <= c <= '\U{200A}') || c == '\U{202F}' || c == '\U{205F}' || c == '\U{3000}'
    || c == '\n' || c == '\r' || c == '\U{2028}' || c == '\U{2029}'
  }

  predicate AllWhitespace(s: string) {
    forall i :: 0 <= i < |s| ==> IsWhitespace(s[i])
  }

  /** The number of whitespace characters at the start of s. */
  function LeadingWhitespace(s: string): (k: nat)
    ensures k <= |s|
    ensures AllWhitespace(s[..k])
    ensures k < |s| ==> !IsWhitespace(s[k])
  {
    if s == [] || !IsWhitespace(s[0]) then 0
    else
      var k := 1 + LeadingWhitespace(s[1..]);
      assert s[..k] == [s[0]] + s[1..][..k - 1];
      k
  }

  /** The number of whitespace characters at the end of s. */
  function TrailingWhitespace(s: string): (k: nat)
    ensures k <= |s|
    ensures AllWhitespace(s[|s| - k..])
    ensures k < |s| ==> !IsWhitespace(s[|s| - k - 1])
  {
    if s == [] || !IsWhitespace(s[|s| - 1]) then 0
    else
      var init := s[..|s| - 1];
      var k0 := TrailingWhitespace(init);
      assert forall i :: |init| - k0 <= i < |init| ==> init[|init| - k0..][i - (|init| - k0)] == s[i];
      1 + k0
  }

  /** `s.trim()`: s without its leading and trailing whitespace. */
  function Trim(s: string): (r: string)
    ensures |r| <= |s|
    ensures r == [] || (!IsWhitespace(r[0]) && !IsWhitespace(r[|r| - 1]))
    ensures LeadingWhitespace(s) + |r| <= |s|
    ensures r == s[LeadingWhitespace(s)..LeadingWhitespace(s) + |r|]
    ensures AllWhitespace(s[..LeadingWhitespace(s)])
    ensures AllWhitespace(s[LeadingWhitespace(s) + |r|..])
  {
    var a := LeadingWhitespace(s);
    var t := s[a..];
    var b := TrailingWhitespace(t);
    assert t[|t| - b..] == s[a + |t| - b..];
    t[..|t| - b]
  }

  /** Trimmed text is empty exactly when the input is blank. */
  lemma TrimEmptyIffBlank(s: string)
    ensures Trim(s) == [] <==> AllWhitespace(s)
  {
    var a := LeadingWhitespace(s);
    if Trim(s) == [] {
      assert s == s[..a] + s[a..];
    } else {
      assert s[a] == Trim(s)[0];
    }
  }

  /** Trimming twice is trimming once. */
  lemma TrimIdempotent(s: string)
    ensures Trim(Trim(s)) == Trim(s)
  {
    var r := Trim(s);
    if r != [] {
      assert LeadingWhitespace(r) == 0;
      assert TrailingWhitespace(r) == 0;
    }
  }

  /** Concrete values: blank input trims to nothing, a title keeps its inner
      space and loses the outer ones. */
  lemma TrimExamples()
    ensures Trim("") == "" && Trim("   ") == ""
    ensures Trim("Read Ch.1") == "Read Ch.1"
    ensures Trim(" \tRead Ch.1\n") == "Read Ch.1"
  {
    TrimEmptyIffBlank("   ");
    var t := "Read Ch.1";
    assert LeadingWhitespace(t) == 0 && TrailingWhitespace(t) == 0;
    assert t[0..] == t && t[..|t| - 0] == t;
    var u := " \tRead Ch.1\n";
    assert LeadingWhitespace(u) == 2 && TrailingWhitespace(u[2..]) == 1;
    assert u[2..][..|u[2..]| - 1] == t;
  }

  predicate HasId(items: seq<Item>, id: int) {
    exists i :: 0 <= i < |items| && items[i].id == id
  }

  /** k is the position `Array.prototype.find` stops at: the first item with
      the given id. */
  predicate IsFirstWithId(items: seq<Item>, id: int, k: int) {
    0 <= k < |items| && items[k].id == id && forall j :: 0 <= j < k ==> items[j].id != id
  }

  /** The list after `toggleSyllabus(id)`: the first item with that id has
      its `done` flag flipped. */
  function Toggled(items: seq<Item>, id: int): (r: seq<Item>)
    ensures |r| == |items|
    ensures forall i :: 0 <= i < |r| ==> r[i].id == items[i].id && r[i].text == items[i].text
  {
    if items == [] then []
    else if items[0].id == id then [items[0].(done := !items[0].done)] + items[1..]
    else [items[0]] + Toggled(items[1..], id)
  }

  /** Toggling an id no item carries changes nothing. */
  lemma {:induction false} ToggleUnknown(items: seq<Item>, id: int)
    requires !HasId(items, id)
    ensures Toggled(items, id) == items
  {
    if items != [] {
      assert items[0].id != id;
      assert !HasId(items[1..], id) by {
        forall i | 0 <= i < |items| - 1 ensures items[1..][i].id != id {
          assert items[1..][i] == items[i + 1];
        }
      }
      ToggleUnknown(items[1..], id);
    }
  }

  /** Toggling flips `done` on the first item with the id and on no other:
      length, order and every other item are kept. */
  lemma {:induction false} ToggleFirst(items: seq<Item>, id: int, k: int)
    requires IsFirstWithId(items, id, k)
    ensures Toggled(items, id)[k] == items[k].(done := !items[k].done)
    ensures forall i :: 0 <= i < |items| && i != k ==> Toggled(items, id)[i] == items[i]
  {
    if k > 0 {
      assert IsFirstWithId(items[1..], id, k - 1);
      ToggleFirst(items[1..], id, k - 1);
    }
  }

  /** Toggling the same id twice restores the list. */
  lemma {:induction false} ToggleTwice(items: seq<Item>, id: int)
    ensures Toggled(Toggled(items, id), id) == items
  {
    if items != [] && items[0].id != id {
      ToggleTwice(items[1..], id);
    }
  }

  /** The list after `deleteSyllabus(id)`: `filter(i => i.id !== id)`. */
  function Deleted(items: seq<Item>, id: int): (r: seq<Item>)
    ensures |r| <= |items|
    ensures forall x :: x in r ==> x in items && x.id != id
    ensures forall x :: x in items && x.id != id ==> x in r
  {
    if items == [] then []
    else if items[0].id == id then Deleted(items[1..], id)
    else [items[0]] + Deleted(items[1..], id)
  }

  /** Delete distributes over concatenation; with `DeletedSingle` this says
      the result keeps exactly the items whose id differs, in their order. */
  lemma {:induction false} DeletedConcat(a: seq<Item>, b: seq<Item>, id: int)
    ensures Deleted(a + b, id) == Deleted(a, id) + Deleted(b, id)
  {
    if a != [] {
      var rest := Deleted(a[1..], id) + Deleted(b, id);
      assert (a + b)[0] == a[0];
      assert (a + b)[1..] == a[1..] + b;
      DeletedConcat(a[1..], b, id);
      assert Deleted(a[1..] + b, id) == rest;
      if a[0].id == id {
        assert Deleted(a + b, id) == rest;
      } else {
        assert Deleted(a + b, id) == [a[0]] + rest;
        assert [a[0]] + rest == ([a[0]] + Deleted(a[1..], id)) + Deleted(b, id);
      }
    } else {
      assert a + b == b;
    }
  }

  lemma DeletedSingle(x: Item, id: int)
    ensures Deleted([x], id) == if x.id == id then [] else [x]
  {
    assert [x][1..] == [];
  }

  /** Deleting an id no item carries changes nothing, and deleting twice is
      deleting once. */
  lemma {:induction false} DeleteUnknown(items: seq<Item>, id: int)
    requires !HasId(items, id)
    ensures Deleted(items, id) == items
  {
    if items != [] {
      assert items[0].id != id;
      assert !HasId(items[1..], id) by {
        forall i | 0 <= i < |items| - 1 ensures items[1..][i].id != id {
          assert items[1..][i] == items[i + 1];
        }
      }
      DeleteUnknown(items[1..], id);
    }
  }

  lemma DeleteIdempotent(items: seq<Item>, id: int)
    ensures Deleted(Deleted(items, id), id) == Deleted(items, id)
  {
    var r := Deleted(items, id);
    assert !HasId(r, id) by {
      forall i | 0 <= i < |r| ensures r[i].id != id {
        assert r[i] in r;
      }
    }
    DeleteUnknown(r, id);
  }

  /** `filter(i => i.done).length`. */
  function CountDone(items: seq<Item>): (n: nat)
    ensures n <= |items|
  {
    if items == [] then 0
    else CountDone(items[..|items| - 1]) + (if items[|items| - 1].done then 1 else 0)
  }

  /** The progress percentage: `Math.round(completed / total * 100)`, and 0
      for an empty list. Math.round rounds halves up; the quotient is taken
      exactly. */
  function Progress(items: seq<Item>): (p: nat)
    ensures p <= 100
    ensures |items| == 0 ==> p == 0
    ensures |items| > 0 ==>
      2 * |items| * p <= 200 * CountDone(items) + |items| < 2 * |items| * (p + 1)
  {
    var total, completed := |items|, CountDone(items);
    if total == 0 then 0
    else
      RoundHalfUp(completed, total);
      (200 * completed + total) / (2 * total)
  }

  /** The bounds of the rounded percentage of c out of t. */
  lemma RoundHalfUp(c: nat, t: nat)
    requires 0 < t && c <= t
    ensures var p := (200 * c + t) / (2 * t);
      && 0 <= p <= 100
      && 2 * t * p <= 200 * c + t < 2 * t * (p + 1)
  {
    var x, d := 200 * c + t, 2 * t;
    var p := x / d;
    DivBounds(x, d);
    assert x < d * 101;
    if p > 100 {
      MulMonotone(d, 101, p);
    }
  }

  lemma DivBounds(x: nat, d: nat)
    requires d > 0
    ensures d * (x / d) <= x < d * (x / d + 1)
  {
    assert x == d * (x / d) + x % d;
    assert d * (x / d + 1) == d * (x / d) + d;
  }

  lemma MulMonotone(d: nat, a: nat, b: nat)
    requires a <= b
    ensures d * a <= d * b
  {
    assert d * b == d * a + d * (b - a);
  }

  /** Toggling an item that exists moves the done count by exactly one. */
  lemma {:induction false} ToggleCountDone(items: seq<Item>, id: int, k: int)
    requires IsFirstWithId(items, id, k)
    ensures CountDone(Toggled(items, id)) == if items[k].done then CountDone(items) - 1 else CountDone(items) + 1
  {
    ToggleFirst(items, id, k);
    CountDoneChange(items, Toggled(items, id), k);
  }

  /** Two lists that differ only in the `done` flag at k differ in their done
      count by that flag. */
  lemma {:induction false} CountDoneChange(a: seq<Item>, b: seq<Item>, k: int)
    requires |a| == |b| && 0 <= k < |a|
    requires forall i :: 0 <= i < |a| && i != k ==> a[i] == b[i]
    requires b[k].done == !a[k].done
    ensures CountDone(b) == if a[k].done then CountDone(a) - 1 else CountDone(a) + 1
  {
    var n := |a|;
    if k == n - 1 {
      assert a[..n - 1] == b[..n - 1];
    } else {
      CountDoneChange(a[..n - 1], b[..n - 1], k);
    }
  }

  /** Concrete values: an empty list shows 0%; one of two items done shows
      50%; one of three shows 33%; two of three show 67%. */
  lemma ProgressExamples(a: Item, b: Item, c: Item)
    requires !a.done && b.done && c.done
    ensures Progress([]) == 0
    ensures Progress([a, b]) == 50
    ensures Progress([b, a, a]) == 33
    ensures Progress([b, a, c]) == 67
  {
    assert [a, b][..1] == [a];
    assert [b, a, a][..2] == [b, a] && [b, a][..1] == [b];
    assert [b, a, c][..2] == [b, a];
    assert [a][..0] == [] && [b][..0] == [];
    assert CountDone([a]) == 0;
    assert CountDone([b]) == 1;
    assert CountDone([b, a]) == 1;
    assert CountDone([b, a, a]) == 1;
    assert CountDone([b, a, c]) == 2;
  }
}
