/** The CSS class mappers of `src/utils/index.ts` as the source writes them:
    `reduce` folds whose accumulator is updated in place, here loops whose
    accumulator is reassigned. Each is proved to compute `Rewrite` (or
    `RekeyObject`) of module ClassValues, where their properties are proved. */
module ClassMapper {
  import opened Wrappers
  import opened ClassValues

  /** mapClassNameObject: a key found in the table is assigned under its
      table value, any other key under itself. */
  method MapClassNameObject(className: Entries, styleObject: StyleTable) returns (accumulator: Entries)
    ensures accumulator == RekeyObject(className, styleObject, Pick)
  {
    accumulator := [];
    var i := 0;
    while i < |className|
      invariant 0 <= i <= |className|
      invariant accumulator == RekeyObject(className[..i], styleObject, Pick)
    {
      var (currentValue, active) := className[i];
      RekeyObjectSnoc(className, styleObject, Pick, i);
      if currentValue in styleObject {
        accumulator := Put(accumulator, styleObject[currentValue], active);
      } else {
        accumulator := Put(accumulator, currentValue, active);
      }
      i := i + 1;
    }
    assert className[..i] == className;
  }

  /** extractClassNameObject: every key is assigned under its table value;
      a missing one under the name "undefined". */
  method ExtractClassNameObject(className: Entries, styleObject: StyleTable) returns (accumulator: Entries)
    ensures accumulator == RekeyObject(className, styleObject, Extract)
  {
    accumulator := [];
    var i := 0;
    while i < |className|
      invariant 0 <= i <= |className|
      invariant accumulator == RekeyObject(className[..i], styleObject, Extract)
    {
      var (currentValue, active) := className[i];
      RekeyObjectSnoc(className, styleObject, Extract, i);
      var key := if currentValue in styleObject then styleObject[currentValue] else "undefined";
      accumulator := Put(accumulator, key, active);
      i := i + 1;
    }
    assert className[..i] == className;
  }

  /** pickCssClass */
  method PickCssClass(className: ClassValue, styleObject: StyleTable) returns (r: ClassValue)
    ensures r == Rewrite(className, styleObject, Pick)
    decreases className
  {
    match className
    case Str(s) =>
      r := Arr(StringItems(s, styleObject, Pick));
    case Cond(obj) =>
      var mapped := MapClassNameObject(obj, styleObject);
      r := Cond(mapped);
    case Arr(items) =>
      var accumulator: seq<Option<ClassValue>> := [];
      var i := 0;
      while i < |items|
        invariant 0 <= i <= |items|
        invariant accumulator == RewriteItems(items[..i], styleObject, Pick)
      {
        assert items[..i + 1][..i] == items[..i];
        assert RewriteItems(items[..i + 1], styleObject, Pick)
               == accumulator + Contribution(items[i], styleObject, Pick);
        match items[i] {
          case None =>
          case Some(Str(s)) =>
            accumulator := accumulator + StringItems(s, styleObject, Pick);
          case Some(Arr(nested)) =>
            var picked := PickCssClass(Arr(nested), styleObject);
            accumulator := accumulator + [Some(picked)];
          case Some(Cond(obj)) =>
            var mapped := MapClassNameObject(obj, styleObject);
            accumulator := accumulator + [Some(Cond(mapped))];
        }
        i := i + 1;
      }
      assert items[..i] == items;
      r := Arr(accumulator);
  }

  /** extractCssClass; `concat` of a conditional object appends it as one
      element, exactly as `push` does in pickCssClass. */
  method ExtractCssClass(className: ClassValue, styleObject: StyleTable) returns (r: ClassValue)
    ensures r == Rewrite(className, styleObject, Extract)
    decreases className
  {
    match className
    case Str(s) =>
      r := Arr(StringItems(s, styleObject, Extract));
    case Cond(obj) =>
      var mapped := ExtractClassNameObject(obj, styleObject);
      r := Cond(mapped);
    case Arr(items) =>
      var accumulator: seq<Option<ClassValue>> := [];
      var i := 0;
      while i < |items|
        invariant 0 <= i <= |items|
        invariant accumulator == RewriteItems(items[..i], styleObject, Extract)
      {
        assert items[..i + 1][..i] == items[..i];
        assert RewriteItems(items[..i + 1], styleObject, Extract)
               == accumulator + Contribution(items[i], styleObject, Extract);
        match items[i] {
          case None =>
          case Some(Str(s)) =>
            accumulator := accumulator + StringItems(s, styleObject, Extract);
          case Some(Arr(nested)) =>
            var extracted := ExtractCssClass(Arr(nested), styleObject);
            accumulator := accumulator + [Some(extracted)];
          case Some(Cond(obj)) =>
            var mapped := ExtractClassNameObject(obj, styleObject);
            accumulator := accumulator + [Some(Cond(mapped))];
        }
        i := i + 1;
      }
      assert items[..i] == items;
      r := Arr(accumulator);
  }
}
