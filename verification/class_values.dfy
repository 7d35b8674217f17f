/** Vue class values and the meaning of rewriting their class names through a
    CSS-module style table (`src/utils/index.ts`, the "CSS Helpers" part).

    A class value is a whitespace-separated string, a conditional object
    (class name -> "is active") or an array of class values that may hold
    `undefined`. `Rewrite` below is the specification that the imperative
    `pickCssClass` and `extractCssClass` of module ClassMapper are proved
    against; the lemmas at the end state what the two modes promise. */
module ClassValues {
  import opened Wrappers
  import opened Chars

  /** A plain object `Record<string, boolean>`: its own keys in the order
      `Object.keys` lists them, each with its value. */
  type Entries = seq<(string, bool)>

  /** The lookup table (`styleObject`) from class names to scoped names. */
  type StyleTable = map<string, string>

  datatype ClassValue =
    | Str(text: string)
    | Cond(entries: Entries)
    | Arr(items: seq<Option<ClassValue>>)

  /** `pickCssClass` passes names missing from the table through;
      `extractCssClass` looks every name up. */
  datatype Mode = Pick | Extract

  // ---------------------------------------------------------------------
  // Splitting on `/\s+/`
  // ---------------------------------------------------------------------

  predicate NoSpace(s: string) {
    forall k :: 0 <= k < |s| ==> !IsSpace(s[k])
  }

  /** The first whitespace position at or after `i`, or `|s|`. */
  function FirstSpace(s: string, i: nat): (j: nat)
    requires i <= |s|
    ensures i <= j <= |s|
    ensures forall k :: i <= k < j ==> !IsSpace(s[k])
    ensures j < |s| ==> IsSpace(s[j])
    decreases |s| - i
  {
    if i == |s| || IsSpace(s[i]) then i else FirstSpace(s, i + 1)
  }

  /** The end of the run of whitespace that starts at `i`. */
  function SpaceRunEnd(s: string, i: nat): (j: nat)
    requires i <= |s|
    ensures i <= j <= |s|
    ensures forall k :: i <= k < j ==> IsSpace(s[k])
    ensures j < |s| ==> !IsSpace(s[j])
    decreases |s| - i
  {
    if i < |s| && IsSpace(s[i]) then SpaceRunEnd(s, i + 1) else i
  }

  /** `s.split(/\s+/)`: the pieces between maximal runs of whitespace. */
  function Split(s: string): (tokens: seq<string>)
    ensures |tokens| >= 1
    ensures forall i :: 0 <= i < |tokens| ==> NoSpace(tokens[i])
    decreases |s|
  {
    var i := FirstSpace(s, 0);
    if i == |s| then [s]
    else [s[..i]] + Split(s[SpaceRunEnd(s, i)..])
  }

  /** Tokens written out with one space between neighbours. */
  function Join(tokens: seq<string>): string
    requires |tokens| >= 1
  {
    if |tokens| == 1 then tokens[0] else tokens[0] + " " + Join(tokens[1..])
  }

  /** The token lists that `Split` can produce: no token holds whitespace and
      only the first and the last may be empty. */
  predicate SplitShaped(tokens: seq<string>) {
    && |tokens| >= 1
    && (forall i :: 0 <= i < |tokens| ==> NoSpace(tokens[i]))
    && (forall i :: 0 < i < |tokens| - 1 ==> tokens[i] != "")
  }

  lemma {:induction false} JoinHead(tokens: seq<string>)
    requires |tokens| >= 1 && tokens[0] != ""
    ensures |Join(tokens)| > 0 && Join(tokens)[0] == tokens[0][0]
  {
  }

  /** Splitting a space-joined token list gives the list back. */
  lemma {:induction false} SplitJoin(tokens: seq<string>)
    requires SplitShaped(tokens)
    ensures Split(Join(tokens)) == tokens
    decreases |tokens|
  {
    var s := Join(tokens);
    if |tokens| == 1 {
      assert FirstSpace(s, 0) == |s|;
    } else {
      var t0, rest := tokens[0], Join(tokens[1..]);
      assert s == t0 + " " + rest;
      var i := FirstSpace(s, 0);
      assert s[|t0|] == ' ';
      assert forall k :: 0 <= k < |t0| ==> s[k] == t0[k];
      assert i == |t0|;
      assert s[..i] == t0;
      var j := SpaceRunEnd(s, i);
      if |tokens| > 2 || tokens[1] != "" {
        JoinHead(tokens[1..]);
        assert s[i + 1] == rest[0];
      }
      assert j == i + 1;
      assert s[j..] == rest;
      SplitJoin(tokens[1..]);
    }
  }

  predicate AllSpace(s: string) {
    forall k :: 0 <= k < |s| ==> IsSpace(s[k])
  }

  /** The whitespace runs that `Split` cuts out, in order. */
  function Separators(s: string): seq<string>
    decreases |s|
  {
    var i := FirstSpace(s, 0);
    if i == |s| then []
    else [s[i..SpaceRunEnd(s, i)]] + Separators(s[SpaceRunEnd(s, i)..])
  }

  /** Tokens with the separators put back between neighbours. */
  function Interleave(tokens: seq<string>, separators: seq<string>): string
    requires |tokens| == |separators| + 1
  {
    if separators == [] then tokens[0]
    else tokens[0] + separators[0] + Interleave(tokens[1..], separators[1..])
  }

  /** One separator between each pair of neighbouring tokens, and each is a
      non-empty run of whitespace. */
  lemma {:induction false} SeparatorsAreRuns(s: string)
    ensures |Separators(s)| == |Split(s)| - 1
    ensures forall k :: 0 <= k < |Separators(s)| ==> Separators(s)[k] != "" && AllSpace(Separators(s)[k])
    decreases |s|
  {
    var i := FirstSpace(s, 0);
    if i < |s| {
      var j := SpaceRunEnd(s, i);
      SeparatorsAreRuns(s[j..]);
      assert Separators(s) == [s[i..j]] + Separators(s[j..]);
    }
  }

  /** One more token and separator in front of an interleaving. */
  lemma InterleaveCons(token: string, separator: string, tokens: seq<string>, separators: seq<string>)
    requires |tokens| == |separators| + 1
    ensures Interleave([token] + tokens, [separator] + separators) == token + separator + Interleave(tokens, separators)
  {
    assert ([token] + tokens)[1..] == tokens;
    assert ([separator] + separators)[1..] == separators;
  }

  /** A string cut at two points is the concatenation of the three pieces. */
  lemma CutTwice(s: string, i: nat, j: nat)
    requires i <= j <= |s|
    ensures s == s[..i] + s[i..j] + s[j..]
  {
  }

  /** Putting the separators back between the tokens gives the input. */
  lemma {:induction false} InterleaveSplit(s: string)
    ensures |Separators(s)| == |Split(s)| - 1
    ensures Interleave(Split(s), Separators(s)) == s
    decreases |s|
  {
    var i := FirstSpace(s, 0);
    if i == |s| {
      assert s[..i] == s;
    } else {
      var j := SpaceRunEnd(s, i);
      var rest := s[j..];
      InterleaveSplit(rest);
      InterleaveCons(s[..i], s[i..j], Split(rest), Separators(rest));
      CutTwice(s, i, j);
    }
  }

  /** Splitting loses nothing but the whitespace runs: one non-empty run of
      whitespace between each pair of neighbouring tokens, and putting the
      runs back gives the input. */
  lemma {:induction false} SplitReconstructs(s: string)
    ensures |Separators(s)| == |Split(s)| - 1
    ensures forall k :: 0 <= k < |Separators(s)| ==> Separators(s)[k] != "" && AllSpace(Separators(s)[k])
    ensures Interleave(Split(s), Separators(s)) == s
  {
    SeparatorsAreRuns(s);
    InterleaveSplit(s);
  }

  /** Every token list `Split` returns is one `SplitJoin` covers: only the
      first and the last token can be empty. */
  lemma {:induction false} SplitIsShaped(s: string)
    ensures SplitShaped(Split(s))
    decreases |s|
  {
    var i := FirstSpace(s, 0);
    if i < |s| {
      var j := SpaceRunEnd(s, i);
      var rest := s[j..];
      SplitIsShaped(rest);
      if j < |s| {
        assert FirstSpace(rest, 0) > 0;
        if FirstSpace(rest, 0) < |rest| {
          assert Split(rest)[0] == rest[..FirstSpace(rest, 0)];
        }
      }
      assert Split(s) == [s[..i]] + Split(rest);
    }
  }

  /** Leading or trailing whitespace yields an empty first or last token. */
  lemma {:induction false} SplitEdges(s: string)
    ensures |s| > 0 && IsSpace(s[0]) ==> Split(s)[0] == ""
    ensures |s| > 0 && IsSpace(s[|s| - 1]) ==> Split(s)[|Split(s)| - 1] == ""
    decreases |s|
  {
    if |s| > 0 && IsSpace(s[|s| - 1]) {
      var i := FirstSpace(s, 0);
      var j := SpaceRunEnd(s, i);
      if j < |s| {
        SplitEdges(s[j..]);
      }
    }
  }

  // ---------------------------------------------------------------------
  // Token lookup
  // ---------------------------------------------------------------------

  /** `classname in styleObject ? styleObject[classname] : classname` */
  function PickToken(token: string, table: StyleTable): string {
    if token in table then table[token] else token
  }

  /** `styleObject[classname]`, `None` for `undefined`. */
  function ExtractToken(token: string, table: StyleTable): Option<string> {
    if token in table then Some(table[token]) else None
  }

  /** The key an object mapper assigns to: an `undefined` key becomes the
      property name "undefined". */
  function ObjectKey(key: string, table: StyleTable, mode: Mode): string {
    match mode
    case Pick => PickToken(key, table)
    case Extract => if key in table then table[key] else "undefined"
  }

  /** mapClassNameString */
  function MapClassNameString(className: string, table: StyleTable): (r: seq<string>)
    ensures |r| == |Split(className)|
    ensures forall i :: 0 <= i < |r| && Split(className)[i] in table ==> r[i] == table[Split(className)[i]]
    ensures forall i :: 0 <= i < |r| && Split(className)[i] !in table ==> r[i] == Split(className)[i]
  {
    var tokens := Split(className);
    seq(|tokens|, i requires 0 <= i < |tokens| => PickToken(tokens[i], table))
  }

  /** extractClassNameString */
  function ExtractClassNameString(className: string, table: StyleTable): (r: seq<Option<string>>)
    ensures |r| == |Split(className)|
    ensures forall i :: 0 <= i < |r| ==> (r[i].Some? <==> Split(className)[i] in table)
    ensures forall i :: 0 <= i < |r| && r[i].Some? ==> r[i].value == table[Split(className)[i]]
  {
    var tokens := Split(className);
    seq(|tokens|, i requires 0 <= i < |tokens| => ExtractToken(tokens[i], table))
  }

  /** A class string rewritten and made into array elements. */
  function StringItems(className: string, table: StyleTable, mode: Mode): seq<Option<ClassValue>> {
    match mode
    case Pick =>
      var names := MapClassNameString(className, table);
      seq(|names|, i requires 0 <= i < |names| => Some(Str(names[i])))
    case Extract =>
      var names := ExtractClassNameString(className, table);
      seq(|names|, i requires 0 <= i < |names| =>
        if names[i].Some? then Some(Str(names[i].value)) else None)
  }

  /** A class string whose tokens are separated by single spaces is mapped
      token for token, in order. */
  lemma PickJoinedTokens(tokens: seq<string>, table: StyleTable)
    requires SplitShaped(tokens)
    ensures MapClassNameString(Join(tokens), table)
            == seq(|tokens|, i requires 0 <= i < |tokens| => PickToken(tokens[i], table))
  {
    SplitJoin(tokens);
  }

  // ---------------------------------------------------------------------
  // Plain objects
  // ---------------------------------------------------------------------

  predicate DistinctKeys(obj: Entries) {
    forall i, j :: 0 <= i < j < |obj| ==> obj[i].0 != obj[j].0
  }

  /** Where `key` sits among the object's keys. */
  function KeyIndex(obj: Entries, key: string): (r: Option<nat>)
    ensures r.Some? ==> r.value < |obj| && obj[r.value].0 == key
    ensures r.None? ==> forall i :: 0 <= i < |obj| ==> obj[i].0 != key
  {
    if obj == [] then None
    else if obj[0].0 == key then Some(0)
    else match KeyIndex(obj[1..], key)
      case Some(i) => Some(i + 1)
      case None => None
  }

  /** `obj[key]`, `None` for `undefined`. */
  function Get(obj: Entries, key: string): Option<bool> {
    match KeyIndex(obj, key)
    case Some(i) => Some(obj[i].1)
    case None => None
  }

  /** `obj[key] = value`: an existing key keeps its place and takes the new
      value; a new key goes last. */
  function Put(obj: Entries, key: string, value: bool): Entries {
    match KeyIndex(obj, key)
    case Some(i) => obj[i := (key, value)]
    case None => obj + [(key, value)]
  }

  /** With distinct keys a key is found where it is. */
  lemma KeyIndexUnique(obj: Entries, key: string, i: nat)
    requires DistinctKeys(obj) && i < |obj| && obj[i].0 == key
    ensures KeyIndex(obj, key) == Some(i)
  {
  }

  /** Assignment keeps the keys distinct, sets the assigned key and leaves
      every other key as it was. */
  lemma PutProperties(obj: Entries, key: string, value: bool)
    requires DistinctKeys(obj)
    ensures DistinctKeys(Put(obj, key, value))
    ensures Get(Put(obj, key, value), key) == Some(value)
    ensures forall k :: k != key ==> Get(Put(obj, key, value), k) == Get(obj, k)
  {
    var p := Put(obj, key, value);
    match KeyIndex(obj, key)
    case Some(i) =>
      assert forall j :: 0 <= j < |p| ==> p[j].0 == obj[j].0;
      KeyIndexUnique(p, key, i);
      forall k | k != key ensures Get(p, k) == Get(obj, k) {
        match KeyIndex(obj, k)
        case Some(j) => KeyIndexUnique(p, k, j);
        case None =>
      }
    case None =>
      assert forall j :: 0 <= j < |obj| ==> p[j] == obj[j];
      KeyIndexUnique(p, key, |obj|);
      forall k | k != key ensures Get(p, k) == Get(obj, k) {
        match KeyIndex(obj, k)
        case Some(j) => KeyIndexUnique(p, k, j);
        case None => assert forall j :: 0 <= j < |p| ==> p[j].0 != k;
      }
  }

  /** The accumulator of `mapClassNameObject` (Pick) or
      `extractClassNameObject` (Extract) after the given keys. */
  function RekeyObject(obj: Entries, table: StyleTable, mode: Mode): Entries
    decreases |obj|
  {
    if obj == [] then []
    else
      var last := obj[|obj| - 1];
      Put(RekeyObject(obj[..|obj| - 1], table, mode), ObjectKey(last.0, table, mode), last.1)
  }

  /** Input key `i` is renamed to `key` and no later input key is. */
  predicate LastRenamedTo(obj: Entries, table: StyleTable, mode: Mode, key: string, i: nat)
    requires i < |obj|
  {
    && ObjectKey(obj[i].0, table, mode) == key
    && forall j :: i < j < |obj| ==> ObjectKey(obj[j].0, table, mode) != key
  }

  /** One more key folded into the accumulator is one assignment. */
  lemma RekeyObjectSnoc(obj: Entries, table: StyleTable, mode: Mode, i: nat)
    requires i < |obj|
    ensures RekeyObject(obj[..i + 1], table, mode)
            == Put(RekeyObject(obj[..i], table, mode), ObjectKey(obj[i].0, table, mode), obj[i].1)
  {
    assert obj[..i + 1][..i] == obj[..i];
  }

  /** The accumulator never holds a key twice. */
  lemma {:induction false} RekeyObjectDistinct(obj: Entries, table: StyleTable, mode: Mode)
    ensures DistinctKeys(RekeyObject(obj, table, mode))
    decreases |obj|
  {
    if obj != [] {
      var n := |obj| - 1;
      RekeyObjectDistinct(obj[..n], table, mode);
      PutProperties(RekeyObject(obj[..n], table, mode), ObjectKey(obj[n].0, table, mode), obj[n].1);
    }
  }

  /** A key is present exactly when some input key renames to it. */
  lemma {:induction false} RekeyObjectPresence(obj: Entries, table: StyleTable, mode: Mode, key: string)
    ensures Get(RekeyObject(obj, table, mode), key).None?
            <==> forall i :: 0 <= i < |obj| ==> ObjectKey(obj[i].0, table, mode) != key
    decreases |obj|
  {
    if obj != [] {
      var n := |obj| - 1;
      var prefix := obj[..n];
      var k := ObjectKey(obj[n].0, table, mode);
      RekeyObjectPresence(prefix, table, mode, key);
      RekeyObjectDistinct(prefix, table, mode);
      PutProperties(RekeyObject(prefix, table, mode), k, obj[n].1);
      if key == k {
        assert Get(RekeyObject(obj, table, mode), key) == Some(obj[n].1);
      } else {
        assert Get(RekeyObject(obj, table, mode), key) == Get(RekeyObject(prefix, table, mode), key);
        assert forall i :: 0 <= i < n ==> prefix[i] == obj[i];
      }
    }
  }

  /** A present key holds the value of the last input key renamed to it. */
  lemma {:induction false} RekeyObjectLastValue(obj: Entries, table: StyleTable, mode: Mode, key: string, i: nat)
    requires i < |obj| && LastRenamedTo(obj, table, mode, key, i)
    ensures Get(RekeyObject(obj, table, mode), key) == Some(obj[i].1)
    decreases |obj|
  {
    var n := |obj| - 1;
    var prefix := obj[..n];
    RekeyObjectDistinct(prefix, table, mode);
    PutProperties(RekeyObject(prefix, table, mode), ObjectKey(obj[n].0, table, mode), obj[n].1);
    if i < n {
      assert prefix[i] == obj[i];
      assert ObjectKey(obj[n].0, table, mode) != key;
      assert forall j :: i < j < n ==> prefix[j] == obj[j];
      RekeyObjectLastValue(prefix, table, mode, key, i);
    }
  }

  /** The result has distinct keys; a key is present exactly when some input
      key renames to it, and it holds the value of the LAST such input key. */
  lemma RekeyObjectLastWins(obj: Entries, table: StyleTable, mode: Mode, key: string)
    ensures DistinctKeys(RekeyObject(obj, table, mode))
    ensures Get(RekeyObject(obj, table, mode), key).None?
            <==> forall i :: 0 <= i < |obj| ==> ObjectKey(obj[i].0, table, mode) != key
    ensures forall i :: 0 <= i < |obj| && LastRenamedTo(obj, table, mode, key, i)
                        ==> Get(RekeyObject(obj, table, mode), key) == Some(obj[i].1)
  {
    RekeyObjectDistinct(obj, table, mode);
    RekeyObjectPresence(obj, table, mode, key);
    forall i | 0 <= i < |obj| && LastRenamedTo(obj, table, mode, key, i)
      ensures Get(RekeyObject(obj, table, mode), key) == Some(obj[i].1)
    {
      RekeyObjectLastValue(obj, table, mode, key, i);
    }
  }

  /** Keys that are renamed to pairwise different names. */
  predicate RenamesApart(obj: Entries, table: StyleTable, mode: Mode) {
    forall i, j :: 0 <= i < j < |obj| ==> ObjectKey(obj[i].0, table, mode) != ObjectKey(obj[j].0, table, mode)
  }

  /** Without collisions the object keeps its order and its values and only
      its keys are renamed. */
  lemma {:induction false} RekeyObjectApart(obj: Entries, table: StyleTable, mode: Mode)
    requires RenamesApart(obj, table, mode)
    ensures |RekeyObject(obj, table, mode)| == |obj|
    ensures forall i :: 0 <= i < |obj|
                        ==> RekeyObject(obj, table, mode)[i] == (ObjectKey(obj[i].0, table, mode), obj[i].1)
    decreases |obj|
  {
    if obj != [] {
      var n := |obj| - 1;
      var prefix := obj[..n];
      forall i, j | 0 <= i < j < n
        ensures ObjectKey(prefix[i].0, table, mode) != ObjectKey(prefix[j].0, table, mode)
      {
        assert prefix[i] == obj[i] && prefix[j] == obj[j];
      }
      RekeyObjectApart(prefix, table, mode);
      var before := RekeyObject(prefix, table, mode);
      var k := ObjectKey(obj[n].0, table, mode);
      forall i | 0 <= i < n
        ensures before[i].0 != k
      {
        assert prefix[i] == obj[i];
      }
      assert KeyIndex(before, k).None?;
      assert RekeyObject(obj, table, mode) == before + [(k, obj[n].1)];
    }
  }

  /** With keys that are not in the table, pick mode returns the object as it
      was (an empty table is the common case). */
  lemma PickObjectUnmapped(obj: Entries, table: StyleTable)
    requires DistinctKeys(obj)
    requires forall i :: 0 <= i < |obj| ==> obj[i].0 !in table
    ensures RekeyObject(obj, table, Pick) == obj
  {
    assert RenamesApart(obj, table, Pick);
    RekeyObjectApart(obj, table, Pick);
    assert forall i :: 0 <= i < |obj| ==> RekeyObject(obj, table, Pick)[i] == obj[i];
  }

  // ---------------------------------------------------------------------
  // The recursive rewrite
  // ---------------------------------------------------------------------

  /** What `pickCssClass` (Pick) and `extractCssClass` (Extract) return. A
      string becomes an array, an object stays an object, an array stays an
      array. */
  function Rewrite(v: ClassValue, table: StyleTable, mode: Mode): (r: ClassValue)
    ensures !r.Str?
    ensures r.Cond? <==> v.Cond?
    decreases v
  {
    match v
    case Str(s) => Arr(StringItems(s, table, mode))
    case Cond(obj) => Cond(RekeyObject(obj, table, mode))
    case Arr(items) => Arr(RewriteItems(items, table, mode))
  }

  /** The array accumulator of the `reduce` after the given elements. */
  function RewriteItems(items: seq<Option<ClassValue>>, table: StyleTable, mode: Mode): seq<Option<ClassValue>>
    decreases items
  {
    if items == [] then []
    else RewriteItems(items[..|items| - 1], table, mode) + Contribution(items[|items| - 1], table, mode)
  }

  /** What one array element adds to the accumulator: nothing for
      `undefined`, its tokens spliced in for a string, and the rewritten value
      as one element for an array or an object. */
  function Contribution(item: Option<ClassValue>, table: StyleTable, mode: Mode): seq<Option<ClassValue>>
    decreases item
  {
    match item
    case None => []
    case Some(Str(s)) => StringItems(s, table, mode)
    case Some(x) => [Some(Rewrite(x, table, mode))]
  }

  /** The array reduction distributes over concatenation of its input. */
  lemma {:induction false} RewriteItemsAppend(a: seq<Option<ClassValue>>, b: seq<Option<ClassValue>>, table: StyleTable, mode: Mode)
    ensures RewriteItems(a + b, table, mode) == RewriteItems(a, table, mode) + RewriteItems(b, table, mode)
    decreases |b|
  {
    if b != [] {
      var n := |b| - 1;
      assert (a + b)[..|a + b| - 1] == a + b[..n];
      assert (a + b)[|a + b| - 1] == b[n];
      RewriteItemsAppend(a, b[..n], table, mode);
      assert RewriteItems(b, table, mode) == RewriteItems(b[..n], table, mode) + Contribution(b[n], table, mode);
    } else {
      assert a + b == a;
    }
  }

  /** The elements that are not `undefined`, in order. */
  function Defined(items: seq<Option<ClassValue>>): (r: seq<Option<ClassValue>>)
    ensures forall i :: 0 <= i < |r| ==> r[i].Some?
    ensures |r| <= |items|
    ensures |items| == 1 ==> r == (if items[0].Some? then items else [])
  {
    if items == [] then []
    else Defined(items[..|items| - 1]) + (if items[|items| - 1].Some? then [items[|items| - 1]] else [])
  }

  /** Dropping `undefined` works element by element and keeps the order. */
  lemma {:induction false} DefinedAppend(a: seq<Option<ClassValue>>, b: seq<Option<ClassValue>>)
    ensures Defined(a + b) == Defined(a) + Defined(b)
    decreases |b|
  {
    if b == [] {
      assert a + b == a;
    } else {
      var n := |b| - 1;
      DefinedAppend(a, b[..n]);
      assert (a + b)[..|a + b| - 1] == a + b[..n];
      assert (a + b)[|a + b| - 1] == b[n];
    }
  }

  /** `undefined` array elements contribute nothing. */
  lemma {:induction false} RewriteItemsSkipsUndefined(items: seq<Option<ClassValue>>, table: StyleTable, mode: Mode)
    ensures RewriteItems(items, table, mode) == RewriteItems(Defined(items), table, mode)
    decreases |items|
  {
    if items != [] {
      var n := |items| - 1;
      var tail := if items[n].Some? then [items[n]] else [];
      RewriteItemsSkipsUndefined(items[..n], table, mode);
      RewriteItemsAppend(Defined(items[..n]), tail, table, mode);
      assert RewriteItems(tail, table, mode) == Contribution(items[n], table, mode) by {
        if tail != [] { assert tail[..0] == []; }
      }
    }
  }

  // ---------------------------------------------------------------------
  // Where `undefined` can appear
  // ---------------------------------------------------------------------

  /** No array inside the value holds `undefined`. */
  predicate NoUndefined(v: ClassValue)
    decreases v
  {
    match v
    case Str(_) => true
    case Cond(_) => true
    case Arr(items) => forall i :: 0 <= i < |items| ==> items[i].Some? && NoUndefined(items[i].value)
  }

  predicate AllDefined(items: seq<Option<ClassValue>>) {
    NoUndefined(Arr(items))
  }

  /** Every token of every string inside the value is in the table. */
  predicate TokensInTable(v: ClassValue, table: StyleTable)
    decreases v
  {
    match v
    case Str(s) => forall i :: 0 <= i < |Split(s)| ==> Split(s)[i] in table
    case Cond(_) => true
    case Arr(items) => forall i :: 0 <= i < |items| && items[i].Some? ==> TokensInTable(items[i].value, table)
  }

  /** Every token and every object key inside the value is in the table. */
  predicate NamesInTable(v: ClassValue, table: StyleTable)
    decreases v
  {
    match v
    case Str(s) => forall i :: 0 <= i < |Split(s)| ==> Split(s)[i] in table
    case Cond(obj) => forall i :: 0 <= i < |obj| ==> obj[i].0 in table
    case Arr(items) => forall i :: 0 <= i < |items| && items[i].Some? ==> NamesInTable(items[i].value, table)
  }

  lemma AllDefinedAppend(a: seq<Option<ClassValue>>, b: seq<Option<ClassValue>>)
    ensures AllDefined(a + b) <==> AllDefined(a) && AllDefined(b)
  {
    assert forall i :: 0 <= i < |a| ==> (a + b)[i] == a[i];
    assert forall i :: 0 <= i < |b| ==> (a + b)[|a| + i] == b[i];
    if AllDefined(a) && AllDefined(b) {
      forall i | 0 <= i < |a + b| ensures (a + b)[i].Some? && NoUndefined((a + b)[i].value) {
        if i >= |a| { assert (a + b)[i] == b[i - |a|]; }
      }
    }
  }

  /** Pick mode never produces `undefined`. */
  lemma {:induction false} PickHasNoUndefined(v: ClassValue, table: StyleTable)
    ensures NoUndefined(Rewrite(v, table, Pick))
    decreases v
  {
    match v
    case Str(_) =>
    case Cond(_) =>
    case Arr(items) => PickItemsHaveNoUndefined(items, table);
  }

  lemma {:induction false} PickItemsHaveNoUndefined(items: seq<Option<ClassValue>>, table: StyleTable)
    ensures AllDefined(RewriteItems(items, table, Pick))
    decreases items
  {
    if items != [] {
      var n := |items| - 1;
      PickItemsHaveNoUndefined(items[..n], table);
      PickContributionHasNoUndefined(items[n], table);
      AllDefinedAppend(RewriteItems(items[..n], table, Pick), Contribution(items[n], table, Pick));
    }
  }

  lemma {:induction false} PickContributionHasNoUndefined(item: Option<ClassValue>, table: StyleTable)
    ensures AllDefined(Contribution(item, table, Pick))
    decreases item
  {
    match item
    case None =>
    case Some(Str(_)) =>
    case Some(x) => PickHasNoUndefined(x, table);
  }

  /** Extract mode produces `undefined` exactly when some token of some
      string inside the value is missing from the table. */
  lemma {:induction false} ExtractUndefinedIffMissing(v: ClassValue, table: StyleTable)
    ensures NoUndefined(Rewrite(v, table, Extract)) <==> TokensInTable(v, table)
    decreases v
  {
    match v
    case Str(s) =>
      var r := Rewrite(v, table, Extract).items;
      if !TokensInTable(v, table) {
        var i :| 0 <= i < |Split(s)| && Split(s)[i] !in table;
        assert r[i].None?;
      }
    case Cond(_) =>
    case Arr(items) => ExtractItemsUndefinedIffMissing(items, table);
  }

  lemma {:induction false} ExtractItemsUndefinedIffMissing(items: seq<Option<ClassValue>>, table: StyleTable)
    ensures AllDefined(RewriteItems(items, table, Extract))
            <==> forall i :: 0 <= i < |items| && items[i].Some? ==> TokensInTable(items[i].value, table)
    decreases items
  {
    if items != [] {
      var n := |items| - 1;
      ExtractItemsUndefinedIffMissing(items[..n], table);
      ExtractContributionUndefinedIffMissing(items[n], table);
      assert forall i :: 0 <= i < n ==> items[..n][i] == items[i];
      AllDefinedAppend(RewriteItems(items[..n], table, Extract), Contribution(items[n], table, Extract));
    }
  }

  lemma {:induction false} ExtractContributionUndefinedIffMissing(item: Option<ClassValue>, table: StyleTable)
    ensures AllDefined(Contribution(item, table, Extract)) <==> (item.Some? ==> TokensInTable(item.value, table))
    decreases item
  {
    match item
    case None =>
    case Some(x) =>
      ExtractUndefinedIffMissing(x, table);
      if !x.Str? {
        var r := Rewrite(x, table, Extract);
        assert Contribution(item, table, Extract) == [Some(r)];
        assert AllDefined([Some(r)]) <==> NoUndefined(r) by {
          assert [Some(r)][0] == Some(r);
        }
      }
  }

  // ---------------------------------------------------------------------
  // The two modes agree where every name is in the table
  // ---------------------------------------------------------------------

  lemma {:induction false} RekeyModesAgree(obj: Entries, table: StyleTable)
    requires forall i :: 0 <= i < |obj| ==> obj[i].0 in table
    ensures RekeyObject(obj, table, Pick) == RekeyObject(obj, table, Extract)
    decreases |obj|
  {
    if obj != [] {
      RekeyModesAgree(obj[..|obj| - 1], table);
    }
  }

  /** When every token and key is in the table, extracting gives the same
      value as picking. */
  lemma {:induction false} PickAgreesWithExtract(v: ClassValue, table: StyleTable)
    requires NamesInTable(v, table)
    ensures Rewrite(v, table, Pick) == Rewrite(v, table, Extract)
    decreases v
  {
    match v
    case Str(s) => StringModesAgree(s, table);
    case Cond(obj) => RekeyModesAgree(obj, table);
    case Arr(items) => ItemsModesAgree(items, table);
  }

  lemma StringModesAgree(s: string, table: StyleTable)
    requires forall i :: 0 <= i < |Split(s)| ==> Split(s)[i] in table
    ensures StringItems(s, table, Pick) == StringItems(s, table, Extract)
  {
  }

  lemma {:induction false} ItemsModesAgree(items: seq<Option<ClassValue>>, table: StyleTable)
    requires forall i :: 0 <= i < |items| && items[i].Some? ==> NamesInTable(items[i].value, table)
    ensures RewriteItems(items, table, Pick) == RewriteItems(items, table, Extract)
    decreases items
  {
    if items != [] {
      var n := |items| - 1;
      ItemsModesAgree(items[..n], table);
      ContributionModesAgree(items[n], table);
    }
  }

  lemma {:induction false} ContributionModesAgree(item: Option<ClassValue>, table: StyleTable)
    requires item.Some? ==> NamesInTable(item.value, table)
    ensures Contribution(item, table, Pick) == Contribution(item, table, Extract)
    decreases item
  {
    match item
    case None =>
    case Some(Str(s)) => StringModesAgree(s, table);
    case Some(x) => PickAgreesWithExtract(x, table);
  }
}
