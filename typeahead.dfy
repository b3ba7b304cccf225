/**
 * The typeahead of the registration form (states and institutions): typing
 * filters a fixed list by case-insensitive substring, the dropdown shows at
 * most ten suggestions, and the arrow keys move a cursor over them that
 * stays between -1 (nothing selected) and the last suggestion.
 *
 * The closure state of `initTypeahead` is the class `Typeahead`; the
 * dropdown's DOM is reduced to whether it is shown and the values of its
 * rendered items. Each handler is specified by a function on `View`, the
 * snapshot of that state.
 */
module Typeahead {
  import opened Values

  /** `filteredData.slice(0, 10)`: the suggestion and render cap. */
  const MaxItems := 10

  // ---------------------------------------------------------------------------
  // Text

  /** `String.prototype.trim`'s white space and line terminators. */
  predicate IsSpace(c: char) {
    c == ' ' || c == '\t' || c == '\n' || c == '\r' || c == '\U{B}' || c == '\U{C}'
    || c == '\U{A0}' || c == '\U{1680}' || ('\U{2000}' <= c <= '\U{200A}')
    || c == '\U{2028}' || c == '\U{2029}' || c == '\U{202F}' || c == '\U{205F}'
    || c == '\U{3000}' || c == '\U{FEFF}'
  }

  function TrimStart(s: string): string {
    if s != [] && IsSpace(s[0]) then TrimStart(s[1..]) else s
  }

  function TrimEnd(s: string): string {
    if s != [] && IsSpace(s[|s| - 1]) then TrimEnd(s[..|s| - 1]) else s
  }

  /** `s.trim()` */
  function Trim(s: string): string {
    TrimEnd(TrimStart(s))
  }

  /** Trimming the start drops a run of white space. */
  lemma {:induction false} TrimStartSpec(s: string)
    ensures |TrimStart(s)| <= |s|
    ensures TrimStart(s) == s[|s| - |TrimStart(s)|..]
    ensures forall k :: 0 <= k < |s| - |TrimStart(s)| ==> IsSpace(s[k])
    ensures TrimStart(s) == [] || !IsSpace(TrimStart(s)[0])
  {
    if s != [] && IsSpace(s[0]) {
      TrimStartSpec(s[1..]);
      forall k | 0 <= k < |s| - |TrimStart(s)|
        ensures IsSpace(s[k])
      {
        if k > 0 { assert s[k] == s[1..][k - 1]; }
      }
    }
  }

  /** Trimming the end drops a run of white space. */
  lemma {:induction false} TrimEndSpec(s: string)
    ensures |TrimEnd(s)| <= |s|
    ensures TrimEnd(s) == s[..|TrimEnd(s)|]
    ensures forall k :: |TrimEnd(s)| <= k < |s| ==> IsSpace(s[k])
    ensures TrimEnd(s) == [] || !IsSpace(TrimEnd(s)[|TrimEnd(s)| - 1])
  {
    if s != [] && IsSpace(s[|s| - 1]) {
      var init := s[..|s| - 1];
      TrimEndSpec(init);
      forall k | |TrimEnd(s)| <= k < |s|
        ensures IsSpace(s[k])
      {
        if k < |init| { assert s[k] == init[k]; }
      }
    }
  }

  /**
   * The trimmed text is a slice of the original with only white space cut
   * from either end, and it neither starts nor ends with white space.
   */
  lemma TrimSpec(s: string)
    ensures exists i, j :: TrimmedAt(s, i, j)
    ensures Trim(s) != [] ==> !IsSpace(Trim(s)[0]) && !IsSpace(Trim(s)[|Trim(s)| - 1])
  {
    var t := TrimStart(s);
    TrimStartSpec(s);
    TrimEndSpec(t);
    var i := |s| - |t|;
    var j := i + |Trim(s)|;
    assert Trim(s) == s[i..j];
    forall k | j <= k < |s|
      ensures IsSpace(s[k])
    {
      assert s[k] == t[k - i];
    }
    assert TrimmedAt(s, i, j);
    if Trim(s) != [] {
      assert Trim(s)[0] == t[0];
    }
  }

  /** `Trim(s)` is `s[i..j]`, and only white space lies outside it. */
  ghost predicate TrimmedAt(s: string, i: int, j: int) {
    && 0 <= i <= j <= |s| && Trim(s) == s[i..j]
    && (forall k :: 0 <= k < i ==> IsSpace(s[k]))
    && (forall k :: j <= k < |s| ==> IsSpace(s[k]))
  }

  /** `s.includes(sub)` */
  predicate Contains(s: string, sub: string) {
    exists i :: 0 <= i <= |s| && sub <= s[i..]
  }

  // ---------------------------------------------------------------------------
  // Filtering

  /** `dataArray.filter(item => item.toLowerCase().includes(lowerQuery))` */
  function Matching(data: seq<string>, lowerQuery: string): seq<string> {
    if data == [] then []
    else (if Contains(Lower(data[0]), lowerQuery) then [data[0]] else []) + Matching(data[1..], lowerQuery)
  }

  /** `.slice(0, 10)` */
  function Visible(s: seq<string>): (r: seq<string>)
    ensures |r| == if |s| <= MaxItems then |s| else MaxItems
    ensures r <= s
  {
    if |s| <= MaxItems then s else s[..MaxItems]
  }

  /** The suggestions for a trimmed query: none for an empty one. */
  function Suggestions(data: seq<string>, query: string): seq<string> {
    if query == "" then [] else Visible(Matching(data, Lower(query)))
  }

  /**
   * The filter keeps exactly the items whose lower-case form contains the
   * query, and keeps them in the order of the list: filtering a
   * concatenation is concatenating the filtered parts.
   */
  lemma {:induction false} MatchingSpec(data: seq<string>, lowerQuery: string)
    ensures forall x :: x in Matching(data, lowerQuery) <==> x in data && Contains(Lower(x), lowerQuery)
    ensures |Matching(data, lowerQuery)| <= |data|
  {
    if data != [] {
      MatchingSpec(data[1..], lowerQuery);
      assert data == [data[0]] + data[1..];
    }
  }

  lemma {:induction false} MatchingConcat(a: seq<string>, b: seq<string>, lowerQuery: string)
    ensures Matching(a + b, lowerQuery) == Matching(a, lowerQuery) + Matching(b, lowerQuery)
  {
    if a != [] {
      MatchingConcat(a[1..], b, lowerQuery);
      assert (a + b)[1..] == a[1..] + b;
    } else {
      assert a + b == b;
    }
  }

  /**
   * The suggestions of a non-empty query are the first ten matching items
   * in list order; an empty query suggests nothing.
   */
  lemma SuggestionsSpec(data: seq<string>, query: string)
    ensures query == "" ==> Suggestions(data, query) == []
    ensures query != "" ==> Suggestions(data, query) <= Matching(data, Lower(query))
    ensures |Suggestions(data, query)| <= MaxItems
    ensures query != "" && |Matching(data, Lower(query))| >= MaxItems ==> |Suggestions(data, query)| == MaxItems
    ensures forall x :: x in Suggestions(data, query) ==> x in data && Contains(Lower(x), Lower(query))
  {
    MatchingSpec(data, Lower(query));
    var s := Suggestions(data, query);
    forall x | x in s
      ensures x in Matching(data, Lower(query))
    {
      var k :| 0 <= k < |s| && s[k] == x;
      assert Matching(data, Lower(query))[k] == x;
    }
  }

  // ---------------------------------------------------------------------------
  // The state and its transitions

  /** The keys the handler distinguishes. */
  datatype Key = ArrowDown | ArrowUp | Enter | Escape | OtherKey

  /** The visible text box, the hidden input, the closure variables and the dropdown. */
  datatype View = View(
    inputValue: string,
    hiddenValue: string,
    filteredData: seq<string>,
    selectedIndex: int,
    shown: bool,
    items: seq<string>)

  /** What every handler keeps. */
  predicate Consistent(v: View) {
    && |v.filteredData| <= MaxItems
    && -1 <= v.selectedIndex < |v.filteredData|
    && (v.shown ==> v.filteredData != [] && v.items == v.filteredData)
    && (!v.shown ==> v.selectedIndex == -1)
  }

  /** `hideDropdown` */
  function Hidden(v: View): View {
    v.(shown := false, selectedIndex := -1)
  }

  /** `renderDropdown`: the first ten suggestions become the items, or the dropdown hides. */
  function Rendered(v: View): View {
    if v.filteredData == [] then Hidden(v) else v.(items := Visible(v.filteredData), shown := true)
  }

  /** `filterData(query)` */
  function Filtered(v: View, data: seq<string>, query: string): View {
    if query == "" then Hidden(v.(filteredData := []))
    else Rendered(v.(filteredData := Suggestions(data, query), selectedIndex := -1))
  }

  /** A suggestion taken: into the text box and the hidden input, and the dropdown hides. */
  function Chosen(v: View, hasHidden: bool, value: string): View {
    Hidden(v.(inputValue := value, hiddenValue := if hasHidden then value else v.hiddenValue))
  }

  function Min(a: int, b: int): int { if a <= b then a else b }

  function Max(a: int, b: int): int { if a >= b then a else b }

  /** The keydown handler. */
  function KeyDown(v: View, data: seq<string>, hasHidden: bool, key: Key): View {
    if !v.shown then
      if key == ArrowDown && Trim(v.inputValue) != "" then Filtered(v, data, Trim(v.inputValue)) else v
    else
      match key
      case ArrowDown => Rendered(v.(selectedIndex := Min(v.selectedIndex + 1, |v.items| - 1)))
      case ArrowUp => Rendered(v.(selectedIndex := Max(v.selectedIndex - 1, -1)))
      case Enter =>
        if 0 <= v.selectedIndex < |v.filteredData| && v.filteredData[v.selectedIndex] != "" then
          Chosen(v, hasHidden, v.filteredData[v.selectedIndex])
        else v
      case Escape => Hidden(v)
      case OtherKey => v
  }

  /** Filtering resets the cursor, and shows the dropdown exactly when something matched. */
  lemma FilteredSpec(v: View, data: seq<string>, query: string)
    requires Consistent(v)
    ensures var w := Filtered(v, data, query);
      && Consistent(w)
      && w.filteredData == Suggestions(data, query)
      && w.selectedIndex == -1
      && (w.shown <==> Suggestions(data, query) != [])
      && w.inputValue == v.inputValue && w.hiddenValue == v.hiddenValue
  {
    SuggestionsSpec(data, query);
  }

  /**
   * Every key keeps the state consistent; in particular the cursor stays in
   * [-1, n-1] for the n suggestions shown.
   */
  lemma KeyDownConsistent(v: View, data: seq<string>, hasHidden: bool, key: Key)
    requires Consistent(v)
    ensures Consistent(KeyDown(v, data, hasHidden, key))
    ensures -1 <= KeyDown(v, data, hasHidden, key).selectedIndex < |KeyDown(v, data, hasHidden, key).filteredData|
  {
    if !v.shown && key == ArrowDown && Trim(v.inputValue) != "" {
      FilteredSpec(v, data, Trim(v.inputValue));
    }
  }

  /** With the dropdown open, ArrowUp undoes an ArrowDown that moved, and ArrowDown undoes an ArrowUp that moved. */
  lemma ArrowsUndo(v: View, data: seq<string>, hasHidden: bool)
    requires Consistent(v) && v.shown
    ensures v.selectedIndex < |v.items| - 1 ==>
      KeyDown(KeyDown(v, data, hasHidden, ArrowDown), data, hasHidden, ArrowUp) == v
    ensures v.selectedIndex >= 0 ==>
      KeyDown(KeyDown(v, data, hasHidden, ArrowUp), data, hasHidden, ArrowDown) == v
  {
  }

  /** `k` presses of ArrowDown. */
  function Downs(v: View, data: seq<string>, hasHidden: bool, k: nat): View {
    if k == 0 then v else KeyDown(Downs(v, data, hasHidden, k - 1), data, hasHidden, ArrowDown)
  }

  /** With the dropdown open, ArrowDown walks the cursor down and stops at the last suggestion. */
  lemma {:induction false} DownsSaturate(v: View, data: seq<string>, hasHidden: bool, k: nat)
    requires Consistent(v) && v.shown
    ensures Downs(v, data, hasHidden, k) == v.(selectedIndex := Min(v.selectedIndex + k, |v.items| - 1))
  {
    if k > 0 {
      DownsSaturate(v, data, hasHidden, k - 1);
    }
  }

  /**
   * Enter on a selected non-empty suggestion puts it in the text box (and
   * the hidden input, when there is one) and closes the dropdown; with no
   * selection it changes nothing.
   */
  lemma EnterChooses(v: View, data: seq<string>, hasHidden: bool)
    requires Consistent(v) && v.shown
    ensures v.selectedIndex == -1 ==> KeyDown(v, data, hasHidden, Enter) == v
    ensures v.selectedIndex >= 0 && v.filteredData[v.selectedIndex] != "" ==>
      var w := KeyDown(v, data, hasHidden, Enter);
      && w.inputValue == v.filteredData[v.selectedIndex]
      && (hasHidden ==> w.hiddenValue == v.filteredData[v.selectedIndex])
      && (!hasHidden ==> w.hiddenValue == v.hiddenValue)
      && !w.shown && w.selectedIndex == -1
  {
  }

  // ---------------------------------------------------------------------------
  // The widget

  class Typeahead {
    /** `dataArray` */
    const data: seq<string>
    /** Whether `hiddenInputId` named an element. */
    const hasHidden: bool

    var inputValue: string
    var hiddenValue: string
    var filteredData: seq<string>
    var selectedIndex: int
    /** `dropdown.style.display === 'block'` */
    var shown: bool
    /** The `data-value`s of the rendered `.typeahead-item`s. */
    var items: seq<string>

    function Snapshot(): View
      reads this
    {
      View(inputValue, hiddenValue, filteredData, selectedIndex, shown, items)
    }

    ghost predicate Valid()
      reads this
    {
      Consistent(Snapshot())
    }

    /** `initTypeahead` over a page whose elements exist. */
    constructor (data: seq<string>, hasHidden: bool, inputValue: string, hiddenValue: string)
      ensures Valid()
      ensures this.data == data && this.hasHidden == hasHidden
      ensures Snapshot() == View(inputValue, hiddenValue, [], -1, false, [])
    {
      this.data := data;
      this.hasHidden := hasHidden;
      this.inputValue := inputValue;
      this.hiddenValue := hiddenValue;
      filteredData := [];
      selectedIndex := -1;
      shown := false;
      items := [];
    }

    method HideDropdown()
      modifies this
      ensures Snapshot() == Hidden(old(Snapshot()))
    {
      shown := false;
      selectedIndex := -1;
    }

    method RenderDropdown()
      modifies this
      ensures Snapshot() == Rendered(old(Snapshot()))
    {
      if |filteredData| == 0 {
        HideDropdown();
        return;
      }
      items := Visible(filteredData);
      shown := true;
    }

    method FilterData(query: string)
      requires Valid()
      modifies this
      ensures Valid()
      ensures Snapshot() == Filtered(old(Snapshot()), data, query)
    {
      FilteredSpec(Snapshot(), data, query);
      if query == "" {
        filteredData := [];
        HideDropdown();
        return;
      }
      var lowerQuery := Lower(query);
      filteredData := Visible(Matching(data, lowerQuery));
      selectedIndex := -1;
      RenderDropdown();
    }

    /** The input event: filter by the trimmed text and copy it to the hidden input. */
    method OnInput(value: string)
      requires Valid()
      modifies this
      ensures Valid()
      ensures Snapshot() == Filtered(old(Snapshot()).(inputValue := value), data, Trim(value))
        .(hiddenValue := if hasHidden then Trim(value) else old(hiddenValue))
    {
      inputValue := value;
      var query := Trim(value);
      FilterData(query);
      if hasHidden {
        hiddenValue := query;
      }
    }

    /** The focus event: filter again when the box holds text. */
    method OnFocus()
      requires Valid()
      modifies this
      ensures Valid()
      ensures Trim(old(inputValue)) != "" ==> Snapshot() == Filtered(old(Snapshot()), data, Trim(old(inputValue)))
      ensures Trim(old(inputValue)) == "" ==> Snapshot() == old(Snapshot())
    {
      if Trim(inputValue) != "" {
        FilterData(Trim(inputValue));
      }
    }

    /** A click on the k-th rendered item chooses its value. */
    method ClickItem(k: int)
      requires Valid() && 0 <= k < |items|
      modifies this
      ensures Valid()
      ensures Snapshot() == Chosen(old(Snapshot()), hasHidden, old(items)[k])
    {
      var value := items[k];
      inputValue := value;
      if hasHidden {
        hiddenValue := value;
      }
      HideDropdown();
    }

    /** The keydown handler. */
    method OnKeyDown(key: Key)
      requires Valid()
      modifies this
      ensures Valid()
      ensures Snapshot() == KeyDown(old(Snapshot()), data, hasHidden, key)
    {
      KeyDownConsistent(Snapshot(), data, hasHidden, key);
      if !shown {
        if key == ArrowDown && Trim(inputValue) != "" {
          FilterData(Trim(inputValue));
        }
        return;
      }
      var n := |items|;
      match key {
        case ArrowDown =>
          selectedIndex := Min(selectedIndex + 1, n - 1);
          RenderDropdown();
        case ArrowUp =>
          selectedIndex := Max(selectedIndex - 1, -1);
          RenderDropdown();
        case Enter =>
          if 0 <= selectedIndex < |filteredData| && filteredData[selectedIndex] != "" {
            var value := filteredData[selectedIndex];
            inputValue := value;
            if hasHidden {
              hiddenValue := value;
            }
            HideDropdown();
          }
        case Escape =>
          HideDropdown();
        case OtherKey =>
      }
    }
  }
}
