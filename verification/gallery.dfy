/** The gallery manifest entry: `GalleryItem.to_dict`, which writes the four
    required fields and only the optional ones that are set, and
    `describe_alt`, which turns a file name into alternative text. */
module Gallery {
  import opened Wrappers
  import opened Paths

  /** A manifest entry. The optional fields are `None` when unset. */
  datatype GalleryItem = GalleryItem(
    src: string, w: int, h: int, alt: string,
    thumb: Option<string>, thumbWidth: Option<int>, thumbHeight: Option<int>,
    caption: Option<string>)

  /** The manifest keys, in the order `to_dict` writes them. */
  datatype Key = Src | W | H | Alt | Thumb | ThumbWidth | ThumbHeight | Caption

  /** The JSON spelling of each key. */
  function KeyName(k: Key): string
  {
    match k
    case Src => "src"
    case W => "w"
    case H => "h"
    case Alt => "alt"
    case Thumb => "thumb"
    case ThumbWidth => "thumbWidth"
    case ThumbHeight => "thumbHeight"
    case Caption => "caption"
  }

  /** Distinct keys are written under distinct names. */
  lemma KeyNamesDistinct(a: Key, b: Key)
    ensures KeyName(a) == KeyName(b) ==> a == b
  {
  }

  /** The position of each key in the order `to_dict` writes them. */
  function Rank(k: Key): nat
  {
    match k
    case Src => 0
    case W => 1
    case H => 2
    case Alt => 3
    case Thumb => 4
    case ThumbWidth => 5
    case ThumbHeight => 6
    case Caption => 7
  }

  /** A JSON value as the manifest uses it. */
  datatype Value = Text(text: string) | Number(number: int)

  /** A dictionary with its insertion order, as Python keeps it. */
  type Dict = seq<(Key, Value)>

  /** Python truthiness of an optional string and an optional integer. */
  predicate TextSet(s: Option<string>)
  {
    s.Some? && s.value != ""
  }

  predicate NumberSet(n: Option<int>)
  {
    n.Some? && n.value != 0
  }

  /** The value of the first entry with `key`, if any. */
  function Lookup(d: Dict, key: Key): Option<Value>
  {
    if d == [] then None
    else if d[0].0 == key then Some(d[0].1)
    else Lookup(d[1..], key)
  }

  /** A lookup finds the first entry with its key. */
  lemma {:induction false} LookupFindsFirst(d: Dict, key: Key, i: nat)
    requires i < |d| && d[i].0 == key
    requires forall j :: 0 <= j < i ==> d[j].0 != key
    ensures Lookup(d, key) == Some(d[i].1)
  {
    if i > 0 {
      LookupFindsFirst(d[1..], key, i - 1);
    }
  }

  /** A lookup fails exactly when no entry has its key. */
  lemma {:induction false} LookupMissing(d: Dict, key: Key)
    ensures Lookup(d, key).None? <==> forall j :: 0 <= j < |d| ==> d[j].0 != key
  {
    if d != [] {
      LookupMissing(d[1..], key);
      assert forall j :: 1 <= j < |d| ==> d[j] == d[1..][j - 1];
    }
  }

  /** The optional entries of `to_dict`, each written only when set. */
  function ThumbEntry(item: GalleryItem): Dict
  {
    if TextSet(item.thumb) then [(Thumb, Text(item.thumb.value))] else []
  }

  function ThumbSizeEntries(item: GalleryItem): Dict
  {
    if NumberSet(item.thumbWidth) && NumberSet(item.thumbHeight)
    then [(ThumbWidth, Number(item.thumbWidth.value)), (ThumbHeight, Number(item.thumbHeight.value))]
    else []
  }

  function CaptionEntry(item: GalleryItem): Dict
  {
    if TextSet(item.caption) then [(Caption, Text(item.caption.value))] else []
  }

  /** `GalleryItem.to_dict`. */
  function ToDict(item: GalleryItem): Dict
  {
    [(Src, Text(item.src)), (W, Number(item.w)), (H, Number(item.h)), (Alt, Text(item.alt))]
    + (ThumbEntry(item) + (ThumbSizeEntries(item) + CaptionEntry(item)))
  }

  /** The reference reading of an item, key by key: the required fields
      always, `thumb` and `caption` when they are non-empty strings, and the
      thumbnail dimensions only as a pair of non-zero numbers. */
  function Field(item: GalleryItem, k: Key): Option<Value>
  {
    var dims := NumberSet(item.thumbWidth) && NumberSet(item.thumbHeight);
    match k
    case Src => Some(Text(item.src))
    case W => Some(Number(item.w))
    case H => Some(Number(item.h))
    case Alt => Some(Text(item.alt))
    case Thumb => if TextSet(item.thumb) then Some(Text(item.thumb.value)) else None
    case ThumbWidth => if dims then Some(Number(item.thumbWidth.value)) else None
    case ThumbHeight => if dims then Some(Number(item.thumbHeight.value)) else None
    case Caption => if TextSet(item.caption) then Some(Text(item.caption.value)) else None
  }

  /** Looking a key up in two dictionaries written one after the other
      finds it in the first when it is there. */
  lemma {:induction false} LookupAppend(a: Dict, b: Dict, k: Key)
    ensures Lookup(a + b, k) == if Lookup(a, k).Some? then Lookup(a, k) else Lookup(b, k)
    decreases |a|
  {
    if a == [] {
      assert a + b == b;
    } else {
      assert (a + b)[1..] == a[1..] + b;
      LookupAppend(a[1..], b, k);
    }
  }

  /** Every key `to_dict` writes maps to the item's field, and a key is
      missing exactly when its field is unset. */
  lemma ToDictFields(item: GalleryItem, k: Key)
    ensures Lookup(ToDict(item), k) == Field(item, k)
  {
    var required := [(Src, Text(item.src)), (W, Number(item.w)), (H, Number(item.h)), (Alt, Text(item.alt))];
    var thumb, size, caption := ThumbEntry(item), ThumbSizeEntries(item), CaptionEntry(item);
    LookupAppend(required, thumb + (size + caption), k);
    LookupAppend(thumb, size + caption, k);
    LookupAppend(size, caption, k);
    var r1 := required[1..];
    var r2 := r1[1..];
    var r3 := r2[1..];
    assert r3[1..] == [];
    assert Lookup(r3, k) == if k == Alt then Some(Text(item.alt)) else None;
    assert Lookup(r2, k) == if k == H then Some(Number(item.h)) else Lookup(r3, k);
    assert Lookup(r1, k) == if k == W then Some(Number(item.w)) else Lookup(r2, k);
    if size != [] {
      assert size[1..][1..] == [];
    }
  }

  /** `to_dict` writes the four required fields first, in this order, and
      the caption last when it is set. */
  lemma ToDictRequiredFirst(item: GalleryItem)
    ensures |ToDict(item)| >= 4
    ensures ToDict(item)[..4] == [(Src, Text(item.src)), (W, Number(item.w)), (H, Number(item.h)), (Alt, Text(item.alt))]
    ensures TextSet(item.caption) <==> ToDict(item)[|ToDict(item)| - 1].0 == Caption
    ensures TextSet(item.caption) ==> ToDict(item)[|ToDict(item)| - 1].1 == Text(item.caption.value)
  {
  }

  /** Entries whose keys come in strictly increasing canonical rank: in the
      canonical order, no key twice. */
  predicate Ascending(d: Dict)
  {
    forall i, j :: 0 <= i < j < |d| ==> Rank(d[i].0) < Rank(d[j].0)
  }

  /** Entries whose key ranks all lie in `[lo, hi)`. */
  predicate RanksWithin(d: Dict, lo: nat, hi: nat)
  {
    forall i :: 0 <= i < |d| ==> lo <= Rank(d[i].0) < hi
  }

  /** Ascending entries followed by ascending entries of higher rank are
      ascending. */
  lemma AscendingAppend(a: Dict, b: Dict, lo: nat, mid: nat, hi: nat)
    requires lo <= mid <= hi
    requires Ascending(a) && RanksWithin(a, lo, mid)
    requires Ascending(b) && RanksWithin(b, mid, hi)
    ensures Ascending(a + b) && RanksWithin(a + b, lo, hi)
  {
    forall i, j | 0 <= i < j < |a + b|
      ensures Rank((a + b)[i].0) < Rank((a + b)[j].0)
    {
      if j < |a| {
        assert (a + b)[i] == a[i] && (a + b)[j] == a[j];
      } else if i < |a| {
        assert (a + b)[i] == a[i] && (a + b)[j] == b[j - |a|];
      } else {
        assert (a + b)[i] == b[i - |a|] && (a + b)[j] == b[j - |a|];
      }
    }
  }

  /** The keys `to_dict` writes follow the canonical order, none twice. */
  lemma ToDictOrder(item: GalleryItem)
    ensures Ascending(ToDict(item))
  {
    var required := [(Src, Text(item.src)), (W, Number(item.w)), (H, Number(item.h)), (Alt, Text(item.alt))];
    var thumb, size, caption := ThumbEntry(item), ThumbSizeEntries(item), CaptionEntry(item);
    assert Ascending(required) && RanksWithin(required, 0, 4);
    assert Ascending(thumb) && RanksWithin(thumb, 4, 5);
    assert Ascending(size) && RanksWithin(size, 5, 7);
    assert Ascending(caption) && RanksWithin(caption, 7, 8);
    AscendingAppend(size, caption, 5, 7, 8);
    AscendingAppend(thumb, size + caption, 4, 5, 8);
    AscendingAppend(required, thumb + (size + caption), 0, 4, 8);
  }

  /** No JSON name appears twice in the entry `to_dict` writes, so the dict
      becomes a JSON object with one member per key. */
  lemma ToDictNamesDistinct(item: GalleryItem)
    ensures forall i, j :: 0 <= i < j < |ToDict(item)| ==> KeyName(ToDict(item)[i].0) != KeyName(ToDict(item)[j].0)
  {
    var d := ToDict(item);
    ToDictOrder(item);
    forall i, j | 0 <= i < j < |d|
      ensures KeyName(d[i].0) != KeyName(d[j].0)
    {
      KeyNamesDistinct(d[i].0, d[j].0);
    }
  }

  /** The item `to_dict` describes: unset and empty optional fields become
      `None`, and a thumbnail dimension whose partner is unset is dropped. */
  function Normalize(item: GalleryItem): (n: GalleryItem)
  {
    var dims := NumberSet(item.thumbWidth) && NumberSet(item.thumbHeight);
    item.(
      thumb := if TextSet(item.thumb) then item.thumb else None,
      thumbWidth := if dims then item.thumbWidth else None,
      thumbHeight := if dims then item.thumbHeight else None,
      caption := if TextSet(item.caption) then item.caption else None)
  }

  function TextAt(d: Dict, key: Key): Option<string>
  {
    match Lookup(d, key)
    case Some(Text(s)) => Some(s)
    case _ => None
  }

  function NumberAt(d: Dict, key: Key): Option<int>
  {
    match Lookup(d, key)
    case Some(Number(n)) => Some(n)
    case _ => None
  }

  /** Reading a manifest entry back: the four required fields must be present
      with the right types. */
  function FromDict(d: Dict): (r: Option<GalleryItem>)
    ensures r.Some? <==> TextAt(d, Src).Some? && NumberAt(d, W).Some? && NumberAt(d, H).Some? && TextAt(d, Alt).Some?
  {
    match (TextAt(d, Src), NumberAt(d, W), NumberAt(d, H), TextAt(d, Alt))
    case (Some(src), Some(w), Some(h), Some(alt)) =>
      Some(GalleryItem(src, w, h, alt, TextAt(d, Thumb), NumberAt(d, ThumbWidth),
        NumberAt(d, ThumbHeight), TextAt(d, Caption)))
    case _ => None
  }

  /** Writing an entry and reading it back gives the item with its unset
      optional fields cleared; nothing set is lost. */
  lemma DictRoundTrip(item: GalleryItem)
    ensures FromDict(ToDict(item)) == Some(Normalize(item))
  {
    ToDictFields(item, Src);
    ToDictFields(item, W);
    ToDictFields(item, H);
    ToDictFields(item, Alt);
    ToDictFields(item, Thumb);
    ToDictFields(item, ThumbWidth);
    ToDictFields(item, ThumbHeight);
    ToDictFields(item, Caption);
  }

  /** Normalising first writes the same entry, and is idempotent. */
  lemma NormalizeKeepsDict(item: GalleryItem)
    ensures ToDict(Normalize(item)) == ToDict(item)
    ensures Normalize(Normalize(item)) == Normalize(item)
  {
  }

  /** `s` with every `from` replaced by `to`: `str.replace` on one
      character. */
  function ReplaceChar(s: string, from: char, to: char): (r: string)
    ensures |r| == |s|
    ensures forall i :: 0 <= i < |s| ==> r[i] == (if s[i] == from then to else s[i])
  {
    if |s| == 0 then [] else [if s[0] == from then to else s[0]] + ReplaceChar(s[1..], from, to)
  }

  /** `describe_alt`: the file name's stem with `_` and `-` turned into
      spaces. */
  function DescribeAlt(name: string): (alt: string)
    ensures |alt| == |Stem(name)|
    ensures forall i :: 0 <= i < |alt| ==>
      alt[i] == (if Stem(name)[i] == '_' || Stem(name)[i] == '-' then ' ' else Stem(name)[i])
  {
    ReplaceChar(ReplaceChar(Stem(name), '_', ' '), '-', ' ')
  }

  /** The alternative text has no `_` or `-` left, and replacing them again
      changes nothing. */
  lemma DescribeAltClean(name: string)
    ensures forall i :: 0 <= i < |DescribeAlt(name)| ==> DescribeAlt(name)[i] != '_' && DescribeAlt(name)[i] != '-'
    ensures ReplaceChar(ReplaceChar(DescribeAlt(name), '_', ' '), '-', ' ') == DescribeAlt(name)
  {
  }

  /** A worked example: `a_b-c.jpg` is described as `a b c`. */
  lemma DescribeAltExample()
    ensures DescribeAlt("a_b-c.jpg") == "a b c"
  {
    SplitsAtExtension("a_b-c", "jpg");
    assert "a_b-c" + "." + "jpg" == "a_b-c.jpg";
  }
}
