/**
 * The browser side of the recipe form, public/assets/js/app.js: the list of
 * selected ingredients the page keeps in `selectedIngredients`, mirrored into
 * the hidden `ingredientes_data` field after each change, and the length gate
 * that decides whether a keystroke in the search box starts a search.
 *
 * `prompt` + `parseFloat` become an optional number (None for NaN),
 * `JSON.stringify` a function fixed when the list is created, and the DOM is
 * left out.
 */
module ClientApp {
  import opened Wrappers
  import opened Strings

  /** An ingredient as the search API returns it. */
  datatype Item = Item(id: int, nombre: string, huellaCarbono: real)

  /** The record kept for each selected ingredient and sent to the server. */
  datatype Selected = Selected(id: int, nombre: string, huellaCarbono: real, cantidadGramos: real)

  /** `list.some(i => i.id === x)` */
  predicate HasId(s: seq<Selected>, x: int)
  {
    exists i :: 0 <= i < |s| && s[i].id == x
  }

  ghost predicate DistinctIds(s: seq<Selected>)
  {
    forall i, j :: 0 <= i < j < |s| ==> s[i].id != s[j].id
  }

  ghost predicate PositiveQuantities(s: seq<Selected>)
  {
    forall i :: 0 <= i < |s| ==> s[i].cantidadGramos > 0.0
  }

  /** `list.filter(i => i.id !== x)`: the entries whose id is not `x`, in their order. */
  function RemoveId(s: seq<Selected>, x: int): (r: seq<Selected>)
    ensures |r| <= |s|
    ensures !HasId(r, x)
  {
    if s == [] then []
    else (if s[0].id != x then [s[0]] else []) + RemoveId(s[1..], x)
  }

  /** An entry survives removal exactly when it was in the list with another id. */
  lemma {:induction false} RemoveIdMembers(s: seq<Selected>, x: int, e: Selected)
    ensures e in RemoveId(s, x) <==> e in s && e.id != x
  {
    if s != [] {
      RemoveIdMembers(s[1..], x, e);
      assert s == [s[0]] + s[1..];
    }
  }

  /** Removing an id that is not in the list changes nothing. */
  lemma {:induction false} RemoveIdAbsent(s: seq<Selected>, x: int)
    requires !HasId(s, x)
    ensures RemoveId(s, x) == s
  {
    if s != [] {
      assert !HasId(s[1..], x) by {
        forall i | 0 <= i < |s[1..]| ensures s[1..][i].id != x {
          assert s[1..][i] == s[i + 1];
        }
      }
      RemoveIdAbsent(s[1..], x);
      assert s[0].id != x;
      assert [s[0]] + s[1..] == s;
    }
  }

  /** Removal works piecewise, so it keeps the surviving entries in their original order. */
  lemma {:induction false} RemoveIdAppend(a: seq<Selected>, b: seq<Selected>, x: int)
    ensures RemoveId(a + b, x) == RemoveId(a, x) + RemoveId(b, x)
  {
    if a != [] {
      var h := if a[0].id != x then [a[0]] else [];
      assert (a + b)[0] == a[0];
      assert (a + b)[1..] == a[1..] + b;
      RemoveIdAppend(a[1..], b, x);
      assert RemoveId(a + b, x) == h + (RemoveId(a[1..], x) + RemoveId(b, x));
      assert RemoveId(a, x) == h + RemoveId(a[1..], x);
      SelectedConcatAssoc(h, RemoveId(a[1..], x), RemoveId(b, x));
    } else {
      assert a + b == b;
    }
  }

  /** Helper: regrouping a concatenation of selections. */
  lemma SelectedConcatAssoc(p: seq<Selected>, q: seq<Selected>, r: seq<Selected>)
    ensures p + (q + r) == p + q + r
  {
  }

  /** Helper: a list is the entries before k, entry k, and the entries after it. */
  lemma SplitAround(s: seq<Selected>, k: int)
    requires 0 <= k < |s|
    ensures s == s[..k] + ([s[k]] + s[k + 1..])
  {
  }

  /** With distinct ids, no entry before or after entry `k` shares its id. */
  lemma OnlyEntryWithId(s: seq<Selected>, k: int)
    requires DistinctIds(s)
    requires 0 <= k < |s|
    ensures !HasId(s[..k], s[k].id) && !HasId(s[k + 1..], s[k].id)
  {
    var before := s[..k];
    forall i | 0 <= i < |before| ensures before[i].id != s[k].id {
      assert before[i] == s[i];
    }
    var after := s[k + 1..];
    forall i | 0 <= i < |after| ensures after[i].id != s[k].id {
      assert after[i] == s[k + 1 + i];
    }
  }

  /** Removing the head's id from a list where only the head has it leaves the tail. */
  lemma RemoveIdOfHead(e: Selected, t: seq<Selected>)
    requires !HasId(t, e.id)
    ensures RemoveId([e] + t, e.id) == t
  {
    RemoveIdAppend([e], t, e.id);
    RemoveIdAbsent(t, e.id);
    assert RemoveId([e], e.id) == [];
  }

  /**
   * In a list with distinct ids, removing the id of entry `k` deletes exactly
   * that entry.
   */
  lemma RemoveIdUnique(s: seq<Selected>, k: int)
    requires DistinctIds(s)
    requires 0 <= k < |s|
    ensures RemoveId(s, s[k].id) == s[..k] + s[k + 1..]
  {
    var x := s[k].id;
    SplitAround(s, k);
    OnlyEntryWithId(s, k);
    RemoveIdAppend(s[..k], [s[k]] + s[k + 1..], x);
    RemoveIdAbsent(s[..k], x);
    RemoveIdOfHead(s[k], s[k + 1..]);
  }

  /** Removal keeps ids distinct and quantities positive. */
  lemma {:induction false} RemoveIdKeepsInvariant(s: seq<Selected>, x: int)
    requires DistinctIds(s) && PositiveQuantities(s)
    ensures DistinctIds(RemoveId(s, x)) && PositiveQuantities(RemoveId(s, x))
  {
    if s != [] {
      var tail := s[1..];
      assert DistinctIds(tail) by {
        forall i, j | 0 <= i < j < |tail| ensures tail[i].id != tail[j].id {
          assert tail[i] == s[i + 1] && tail[j] == s[j + 1];
        }
      }
      assert PositiveQuantities(tail) by {
        forall i | 0 <= i < |tail| ensures tail[i].cantidadGramos > 0.0 {
          assert tail[i] == s[i + 1];
        }
      }
      RemoveIdKeepsInvariant(tail, x);
      var rest := RemoveId(tail, x);
      if s[0].id != x {
        forall j | 0 <= j < |rest| ensures rest[j].id != s[0].id {
          RemoveIdMembers(tail, x, rest[j]);
          var m :| 0 <= m < |tail| && tail[m] == rest[j];
          assert tail[m] == s[m + 1];
        }
        assert RemoveId(s, x) == [s[0]] + rest;
        var r := [s[0]] + rest;
        forall i, j | 0 <= i < j < |r| ensures r[i].id != r[j].id {
          if i == 0 { assert r[j] == rest[j - 1]; } else { assert r[i] == rest[i - 1] && r[j] == rest[j - 1]; }
        }
        forall i | 0 <= i < |r| ensures r[i].cantidadGramos > 0.0 {
          if i > 0 { assert r[i] == rest[i - 1]; }
        }
      } else {
        assert RemoveId(s, x) == rest;
      }
    }
  }

  /** Adding with a fresh id and a positive quantity keeps ids distinct and quantities positive. */
  lemma AppendKeepsInvariant(s: seq<Selected>, e: Selected)
    requires DistinctIds(s) && PositiveQuantities(s)
    requires !HasId(s, e.id) && e.cantidadGramos > 0.0
    ensures DistinctIds(s + [e]) && PositiveQuantities(s + [e])
  {
    var r := s + [e];
    forall i, j | 0 <= i < j < |r| ensures r[i].id != r[j].id {
      assert r[i] == s[i];
      if j < |s| { assert r[j] == s[j]; }
    }
    forall i | 0 <= i < |r| ensures r[i].cantidadGramos > 0.0 {
      if i < |s| { assert r[i] == s[i]; }
    }
  }

  /** Why `addIngredienteToRecipe` returned. */
  datatype AddResult = Duplicate | InvalidQuantity | Added

  /** The page's selected-ingredient list and the hidden form field that mirrors it. */
  class SelectedIngredients {
    var selected: seq<Selected>
    var hiddenValue: string
    /** `JSON.stringify` on the list. */
    const stringify: seq<Selected> -> string

    ghost predicate Valid()
      reads this
    {
      DistinctIds(selected) && PositiveQuantities(selected)
    }

    constructor (stringify: seq<Selected> -> string)
      ensures Valid()
      ensures selected == [] && hiddenValue == "" && this.stringify == stringify
    {
      this.selected := [];
      this.hiddenValue := "";
      this.stringify := stringify;
    }

    /**
     * Lines 16-50 of app.js: refuse an id already in the list, then a
     * quantity that is NaN or not positive; otherwise append the record and
     * rewrite the hidden field.
     */
    method Add(item: Item, cantidadGramos: Option<real>) returns (result: AddResult)
      requires Valid()
      modifies this
      ensures Valid()
      ensures result == (if HasId(old(selected), item.id) then Duplicate
                         else if cantidadGramos.None? || cantidadGramos.value <= 0.0 then InvalidQuantity
                         else Added)
      ensures result != Added ==> selected == old(selected) && hiddenValue == old(hiddenValue)
      ensures result == Added ==>
                selected == old(selected) + [Selected(item.id, item.nombre, item.huellaCarbono, cantidadGramos.value)]
                && hiddenValue == stringify(selected)
    {
      if HasId(selected, item.id) {
        return Duplicate;
      }
      if cantidadGramos.None? || cantidadGramos.value <= 0.0 {
        return InvalidQuantity;
      }
      var dataToSend := Selected(item.id, item.nombre, item.huellaCarbono, cantidadGramos.value);
      AppendKeepsInvariant(selected, dataToSend);
      selected := selected + [dataToSend];
      hiddenValue := stringify(selected);
      result := Added;
    }

    /** Lines 94-97 of app.js: keep the entries whose id differs, then rewrite the hidden field. */
    method Remove(ingredientId: int)
      requires Valid()
      modifies this
      ensures Valid()
      ensures selected == RemoveId(old(selected), ingredientId)
      ensures hiddenValue == stringify(selected)
    {
      RemoveIdKeepsInvariant(selected, ingredientId);
      selected := RemoveId(selected, ingredientId);
      hiddenValue := stringify(selected);
    }
  }

  /** What a keystroke in the search box does. */
  datatype SearchAction = ClearResults | ScheduleSearch(query: string)

  /**
   * Lines 116-121 of app.js: trim the box's value; fewer than three UTF-16
   * code units clear the results, anything longer schedules a search for the
   * trimmed text.
   */
  function OnSearchInput(value: string): (a: SearchAction)
    ensures a.ScheduleSearch? <==> Utf16Length(Trim(value, JsTrimSet)) >= 3
    ensures a.ScheduleSearch? ==> a.query == Trim(value, JsTrimSet)
    ensures a.ScheduleSearch? ==> Unpadded(a.query, JsTrimSet) && 3 <= Utf16Length(a.query)
  {
    var query := Trim(value, JsTrimSet);
    if Utf16Length(query) < 3 then ClearResults else ScheduleSearch(query)
  }

  /** A searched query is at least two characters, three when it stays in the BMP. */
  lemma SearchQueryLength(value: string)
    requires OnSearchInput(value).ScheduleSearch?
    ensures |OnSearchInput(value).query| >= 2
    ensures (forall i :: 0 <= i < |value| ==> value[i] as int <= 0xFFFF) ==> |OnSearchInput(value).query| >= 3
  {
    var q := Trim(value, JsTrimSet);
    assert OnSearchInput(value).query == q && Utf16Length(q) >= 3;
    if forall i :: 0 <= i < |value| ==> value[i] as int <= 0xFFFF {
      TrimStaysInBmp(value);
      assert Utf16Length(q) == |q|;
    }
  }

  /** Helper: trimming a string without astral characters leaves none. */
  lemma TrimStaysInBmp(s: string)
    requires forall i :: 0 <= i < |s| ==> s[i] as int <= 0xFFFF
    ensures forall i :: 0 <= i < |Trim(s, JsTrimSet)| ==> Trim(s, JsTrimSet)[i] as int <= 0xFFFF
  {
    var t := Trim(s, JsTrimSet);
    var a := TrimIsInfix(s, JsTrimSet);
    forall i | 0 <= i < |t| ensures t[i] as int <= 0xFFFF {
      assert t[i] == s[a + i];
    }
  }

  /** Whitespace and line terminators alone never start a search. */
  lemma BlankInputClears(value: string)
    requires AllIn(value, JsTrimSet)
    ensures OnSearchInput(value) == ClearResults
  {
    TrimAllCut(value, JsTrimSet);
  }

  /** The action depends on the box's value only through its trimmed text. */
  lemma SameTrimSameAction(v: string, w: string)
    requires Trim(v, JsTrimSet) == Trim(w, JsTrimSet)
    ensures OnSearchInput(v) == OnSearchInput(w)
  {
  }

  /** Surrounding whitespace does not change what is searched. */
  lemma PaddingIsIgnored(pre: string, q: string, post: string)
    requires AllIn(pre, JsTrimSet) && AllIn(post, JsTrimSet)
    requires q != [] && Unpadded(q, JsTrimSet)
    ensures OnSearchInput(pre + q + post) == OnSearchInput(q)
  {
    TrimPadded(pre, q, post, JsTrimSet);
    TrimUnpadded(q, JsTrimSet);
    SameTrimSameAction(pre + q + post, q);
  }

  /**
   * `length` counts UTF-16 code units, so two characters, one of them outside
   * the BMP (an emoji, say), already start a search.
   */
  lemma AstralCharacterCountsTwice(x: char, y: char)
    requires x !in JsTrimSet && y !in JsTrimSet
    requires y as int > 0xFFFF
    ensures OnSearchInput([x, y]) == ScheduleSearch([x, y])
  {
    assert [x] + [y] == [x, y];
    Utf16LengthAppend([x], [y]);
    Utf16LengthChar(x);
    Utf16LengthChar(y);
    TrimUnpadded([x, y], JsTrimSet);
  }
}
