/** Image-path handling on both sides of the storefront: the backend turns the
    stored images/avatar column into a list of URLs, and the frontend pages
    turn whatever the API returned into something an <img> can show. JSON
    decoding is a parameter: decode(text) is the decoded value, or None when
    the text is not JSON. */
module Images {
  import opened Common
  import opened Strings

  // ---------------------------------------------------------------------------
  // Backend

  /** The application URL asset() prefixes (APP_URL). */
  const AppUrl: string := "http://127.0.0.1:8000"

  /** Laravel's asset(path) for a relative path: the application URL, one
      slash, then the path with its leading and trailing slashes trimmed. */
  function Asset(path: string): string {
    AppUrl + "/" + PhpTrim(path, {'/'})
  }

  /** A path with no slash at either end goes under the application URL as it is. */
  lemma AssetPlain(path: string)
    requires path != [] ==> path[0] != '/' && path[|path| - 1] != '/'
    ensures Asset(path) == AppUrl + "/" + path
  {
    PhpTrimUnique(path, {'/'}, 0, |path|);
  }

  /** The backend's fallback image URL. */
  const BackendPlaceholder: string := Asset("storage/placeholder.png")

  /** Characters ProductController strips from both ends of an entry. */
  const ControllerTrim: set<char> := {'"', '[', ']', '\\', '/'}

  /** Characters the Product model's accessor strips from both ends of an entry. */
  const AccessorTrim: set<char> := {'"', '[', ']'}

  /** PHP's is_array on a decoded value: json_decode(text, true) turns JSON
      objects into (associative) arrays as well. */
  predicate IsPhpArray(j: Json) {
    j.JArr? || j.JObj?
  }

  /** The values of a PHP array, in order. */
  function PhpArrayValues(j: Json): (r: seq<Json>)
    requires IsPhpArray(j)
    ensures j.JArr? ==> r == j.items
    ensures j.JObj? ==> |r| == |j.entries| && forall i :: 0 <= i < |r| ==> r[i] == j.entries[i].1
  {
    if j.JArr? then j.items else seq(|j.entries|, i requires 0 <= i < |j.entries| => j.entries[i].1)
  }

  /** PHP falsiness: null, false, 0, "", "0" and the empty array. */
  predicate PhpFalsy(j: Json) {
    match j
    case JNull => true
    case JBool(b) => !b
    case JNum(n) => n == 0
    case JStr(s) => PhpFalsyString(s)
    case JArr(items) => items == []
    case JObj(entries) => entries == []
  }

  function PhpTruthy(j: Json): bool {
    !PhpFalsy(j)
  }

  function PhpTruthyString(s: string): bool {
    !PhpFalsyString(s)
  }

  /** The list an images/avatar field stands for: an array as it is, a string
      that decodes to an array as the decoded array, any other string as a
      one-element list, anything else as the empty list. */
  function DecodeList(field: Json, decode: string -> Option<Json>): (r: seq<Json>)
    ensures IsPhpArray(field) ==> r == PhpArrayValues(field)
    ensures (field.JStr? && decode(field.s).Some? && IsPhpArray(decode(field.s).value))
              ==> r == PhpArrayValues(decode(field.s).value)
    ensures field.JStr? && !(decode(field.s).Some? && IsPhpArray(decode(field.s).value)) ==> r == [field]
    ensures !IsPhpArray(field) && !field.JStr? ==> r == []
  {
    if IsPhpArray(field) then PhpArrayValues(field)
    else if field.JStr? then
      var decoded := decode(field.s);
      if decoded.Some? && IsPhpArray(decoded.value) then PhpArrayValues(decoded.value) else [field]
    else []
  }

  /** PHP's string conversion of a scalar; None for an array, where trim()
      raises a TypeError. */
  function PhpToString(j: Json): (r: Option<string>)
    ensures r.None? <==> IsPhpArray(j)
    ensures r.Some? ==> (PhpFalsyString(r.value) <==> PhpFalsy(j))
  {
    match j
    case JNull => Some("")
    case JBool(b) => Some(if b then "1" else "")
    case JNum(n) => Some(IntToDecimal(n))
    case JStr(s) => Some(s)
    case JArr(_) => None
    case JObj(_) => None
  }

  /** The string form of every entry; None when an entry is an array. */
  function EntryStrings(entries: seq<Json>): (r: Option<seq<string>>)
    ensures r.Some? <==> forall i :: 0 <= i < |entries| ==> !IsPhpArray(entries[i])
    ensures r.Some? ==> |r.value| == |entries|
    ensures r.Some? ==> forall i :: 0 <= i < |entries| ==> PhpToString(entries[i]) == Some(r.value[i])
  {
    if entries == [] then Some([])
    else
      match (PhpToString(entries[0]), EntryStrings(entries[1..]))
      case (Some(s), Some(rest)) =>
        var r := [s] + rest;
        assert forall i :: 1 <= i < |entries| ==> entries[i] == entries[1..][i - 1] && r[i] == rest[i - 1];
        Some(r)
      case (None, _) => None
      case (_, None) =>
        assert forall i :: 1 <= i < |entries| ==> entries[i] == entries[1..][i - 1];
        None
  }

  /** One entry as ProductController cleans it: ends trimmed of `"[]\/`, and a
      `products/` path turned into its public storage URL. */
  function CleanImage(img: string): (r: string)
    ensures var c := PhpTrim(img, ControllerTrim);
      && (StartsWith(c, "products/") ==> r == Asset("storage/" + c))
      && (!StartsWith(c, "products/") ==> r == c)
  {
    var c := PhpTrim(img, ControllerTrim);
    if StartsWith(c, "products/") then Asset("storage/" + c) else c
  }

  /** Every entry of the field, cleaned, before falsy entries are dropped. */
  function CleanedImages(field: Json, decode: string -> Option<Json>): (r: Option<seq<string>>)
    ensures var entries := DecodeList(field, decode);
      && (r.Some? <==> forall i :: 0 <= i < |entries| ==> !IsPhpArray(entries[i]))
      && (r.Some? ==> |r.value| == |entries|)
      && (r.Some? ==> forall i :: 0 <= i < |entries| ==> r.value[i] == CleanImage(PhpToString(entries[i]).value))
  {
    match EntryStrings(DecodeList(field, decode))
    case None => None
    case Some(raw) => Some(seq(|raw|, i requires 0 <= i < |raw| => CleanImage(raw[i])))
  }

  /** The last step of getImageUrls: drop the falsy entries, and fall back
      to the placeholder alone when none survives. */
  function KeepOrPlaceholder(cleaned: seq<string>): (r: seq<string>)
    ensures |r| >= 1
    ensures forall i :: 0 <= i < |r| ==> !PhpFalsyString(r[i])
    ensures (forall i :: 0 <= i < |cleaned| ==> PhpFalsyString(cleaned[i])) ==> r == [BackendPlaceholder]
    ensures (exists i :: 0 <= i < |cleaned| && !PhpFalsyString(cleaned[i])) ==>
              forall x :: multiset(r)[x] == if PhpFalsyString(x) then 0 else multiset(cleaned)[x]
    ensures (exists i :: 0 <= i < |cleaned| && !PhpFalsyString(cleaned[i])) ==> KeptInOrder(r, cleaned, PhpTruthyString)
  {
    var kept := Filter(cleaned, PhpTruthyString);
    KeptTruthyStrings(cleaned);
    PlaceholderTruthy();
    if kept == [] then [BackendPlaceholder] else kept
  }

  /** Keeping the truthy entries leaves nothing exactly when every entry is
      falsy; what is kept is truthy, in its original order, each as often as
      in cleaned. */
  lemma KeptTruthyStrings(cleaned: seq<string>)
    ensures var kept := Filter(cleaned, PhpTruthyString);
      && ((forall i :: 0 <= i < |cleaned| ==> PhpFalsyString(cleaned[i])) ==> kept == [])
      && ((exists i :: 0 <= i < |cleaned| && !PhpFalsyString(cleaned[i])) ==> kept != [])
      && (forall i :: 0 <= i < |kept| ==> !PhpFalsyString(kept[i]))
      && (forall x :: multiset(kept)[x] == if PhpFalsyString(x) then 0 else multiset(cleaned)[x])
      && KeptInOrder(kept, cleaned, PhpTruthyString)
  {
    var kept := Filter(cleaned, PhpTruthyString);
    FilterKeptInOrder(cleaned, PhpTruthyString);
    assert forall i :: 0 <= i < |cleaned| ==> cleaned[i] in cleaned;
    assert forall i :: 0 <= i < |kept| ==> kept[i] in kept;
  }

  /** The placeholder URL is a truthy string. */
  lemma PlaceholderTruthy()
    ensures !PhpFalsyString(BackendPlaceholder)
  {
    assert |BackendPlaceholder| > 1;
  }

  /** ProductController::getImageUrls: every entry cleaned, then
      KeepOrPlaceholder. None is the TypeError an array entry raises. */
  function GetImageUrls(field: Json, decode: string -> Option<Json>): (r: Option<seq<string>>)
    ensures r.Some? <==> CleanedImages(field, decode).Some?
    ensures r.Some? ==> r.value == KeepOrPlaceholder(CleanedImages(field, decode).value)
  {
    match CleanedImages(field, decode)
    case None => None
    case Some(cleaned) => Some(KeepOrPlaceholder(cleaned))
  }

  /** PHP's (array) cast: an array stays, null becomes [], a scalar becomes [scalar]. */
  function CastToArray(j: Json): (r: seq<Json>)
    ensures IsPhpArray(j) ==> r == PhpArrayValues(j)
    ensures j.JNull? ==> r == []
    ensures !IsPhpArray(j) && !j.JNull? ==> r == [j]
  {
    if IsPhpArray(j) then PhpArrayValues(j) else if j.JNull? then [] else [j]
  }

  /** The Product model's image_urls accessor: the placeholder for an empty
      field, otherwise every entry, trimmed of `"[]` and put under storage/,
      with nothing dropped. */
  function AccessorImageUrls(images: Json): (r: Option<seq<string>>)
    ensures PhpFalsy(images) ==> r == Some([BackendPlaceholder])
    ensures !PhpFalsy(images) ==>
              (r.Some? <==> forall i :: 0 <= i < |CastToArray(images)| ==> !IsPhpArray(CastToArray(images)[i]))
    ensures !PhpFalsy(images) && r.Some? ==>
              && |r.value| == |CastToArray(images)|
              && forall i :: 0 <= i < |r.value| ==>
                   r.value[i] == Asset("storage/" + PhpTrim(PhpToString(CastToArray(images)[i]).value, AccessorTrim))
  {
    if PhpFalsy(images) then Some([BackendPlaceholder])
    else
      match EntryStrings(CastToArray(images))
      case None => None
      case Some(raw) => Some(AccessorUrls(raw))
  }

  /** The image_urls accessor as the array cast is meant to feed it: run on
      the list the attribute stands for, decoded the way the controllers
      decode it. An empty list gives the placeholder, and every entry one
      storage URL, in order. */
  function DecodedAccessorImageUrls(images: Json, decode: string -> Option<Json>): (r: Option<seq<string>>)
    ensures DecodeList(images, decode) == [] ==> r == Some([BackendPlaceholder])
    ensures var entries := DecodeList(images, decode);
      entries != [] ==> (r.Some? <==> forall i :: 0 <= i < |entries| ==> !IsPhpArray(entries[i]))
    ensures var entries := DecodeList(images, decode);
      entries != [] && r.Some? ==>
        && |r.value| == |entries|
        && forall i :: 0 <= i < |entries| ==>
             r.value[i] == Asset("storage/" + PhpTrim(PhpToString(entries[i]).value, AccessorTrim))
  {
    AccessorImageUrls(JArr(DecodeList(images, decode)))
  }

  /** Each entry trimmed of `"[]` and put under storage/, in order. */
  function AccessorUrls(raw: seq<string>): (r: seq<string>)
    ensures |r| == |raw|
    ensures forall i :: 0 <= i < |raw| ==> r[i] == Asset("storage/" + PhpTrim(raw[i], AccessorTrim))
  {
    seq(|raw|, i requires 0 <= i < |raw| => Asset("storage/" + PhpTrim(raw[i], AccessorTrim)))
  }

  /** TestimonialController::index's avatar list: the decoded list without its
      falsy entries. */
  function NormalizeAvatars(avatar: Json, decode: string -> Option<Json>): (r: seq<Json>)
    ensures forall x :: multiset(r)[x] == if PhpFalsy(x) then 0 else multiset(DecodeList(avatar, decode))[x]
    ensures forall i :: 0 <= i < |r| ==> !PhpFalsy(r[i])
    ensures KeptInOrder(r, DecodeList(avatar, decode), PhpTruthy)
  {
    FilterKeptInOrder(DecodeList(avatar, decode), PhpTruthy);
    var r := Filter(DecodeList(avatar, decode), PhpTruthy);
    assert forall i :: 0 <= i < |r| ==> r[i] in r;
    r
  }

  /** A list of stored paths as a decoded JSON value: a JSON list of strings. */
  function PathList(paths: seq<string>): (r: Json)
    ensures r.JArr? && |r.items| == |paths|
    ensures forall i :: 0 <= i < |paths| ==> r.items[i] == JStr(paths[i])
  {
    JArr(seq(|paths|, i requires 0 <= i < |paths| => JStr(paths[i])))
  }

  /** The entries of a list of paths read back as the paths. */
  lemma PathListEntryStrings(paths: seq<string>)
    ensures EntryStrings(PathList(paths).items) == Some(paths)
  {
    var items := PathList(paths).items;
    assert forall i :: 0 <= i < |items| ==> !IsPhpArray(items[i]) && PhpToString(items[i]) == Some(paths[i]);
    var r := EntryStrings(items);
    assert r.Some? && |r.value| == |paths|;
    assert forall i :: 0 <= i < |paths| ==> r.value[i] == paths[i];
    assert r.value == paths;
  }

  /** A path as the public disk returns it for a product upload: under
      products/, not ending in a character the controller trims. */
  predicate StoredProductPath(path: string) {
    StartsWith(path, "products/") && path[|path| - 1] !in ControllerTrim
  }

  // ---------------------------------------------------------------------------
  // The stored column

  /** The characters json_encode escapes with a backslash in the paths it
      writes (control and non-ASCII characters are not modelled). */
  const JsonEscaped: set<char> := {'"', '\\', '/'}

  /** json_encode of one character inside a string. */
  function EscapeChar(c: char): string {
    if c in JsonEscaped then ['\\', c] else [c]
  }

  /** json_encode of the characters of a string, without the quotes. */
  function JsonEscape(s: string): (r: string)
    ensures |r| >= |s|
    ensures s != [] && s[|s| - 1] !in JsonEscaped ==> r != [] && r[|r| - 1] == s[|s| - 1]
    decreases |s|
  {
    if s == [] then []
    else
      var rest := JsonEscape(s[1..]);
      if |s| > 1 then
        assert s[1..][|s| - 2] == s[|s| - 1];
        EscapeChar(s[0]) + rest
      else
        EscapeChar(s[0]) + rest
  }

  /** Escaping a concatenation escapes each part. */
  lemma {:induction false} JsonEscapeConcat(a: string, b: string)
    ensures JsonEscape(a + b) == JsonEscape(a) + JsonEscape(b)
    decreases |a|
  {
    if a == [] {
      assert a + b == b;
    } else {
      assert (a + b)[1..] == a[1..] + b;
      JsonEscapeConcat(a[1..], b);
    }
  }

  /** A product path escapes to something longer, beginning `products\/`. */
  lemma EscapeProductPath(path: string)
    requires StoredProductPath(path)
    ensures var e := JsonEscape(path);
      |e| > |path| && e[0] == 'p' && e[|e| - 1] == path[|path| - 1]
  {
    PrefixChar(path, "products/", 0);
    PrefixChar(path, "products/", 8);
    var tail := path[8..];
    assert path == path[..8] + tail;
    JsonEscapeConcat(path[..8], tail);
    assert tail[0] == '/' && tail[1..] == path[9..];
    assert |JsonEscape(tail)| == 2 + |JsonEscape(path[9..])|;
  }

  /** The quoted strings of a non-empty list without their outer quotes:
      each escaped, joined by `","`. */
  function JoinEscaped(paths: seq<string>): (r: string)
    requires paths != []
    decreases |paths|
  {
    JsonEscape(paths[0]) + (if |paths| == 1 then "" else "\",\"" + JoinEscaped(paths[1..]))
  }

  /** json_encode of a list of strings: `[]`, or the quoted, escaped strings
      separated by commas between brackets. */
  function EncodeStringList(paths: seq<string>): (r: string)
    ensures r != [] && r[0] == '[' && r[|r| - 1] == ']'
  {
    if paths == [] then "[]" else Quoted(JoinEscaped(paths))
  }

  /** `["` + inner + `"]`: the outer brackets and quotes of a non-empty list. */
  function Quoted(inner: string): (r: string)
    ensures |r| == |inner| + 4 && r[0] == '[' && r[|r| - 1] == ']'
    ensures r[2..|r| - 2] == inner
  {
    "[\"" + inner + "\"]"
  }

  /** The images (or avatar) attribute as the store and update handlers leave
      it: they json_encode the stored paths, the array cast encodes that text
      once more on save and decodes it once on read, so the attribute reads
      back as the JSON text itself, a string. */
  function EncodedColumn(paths: seq<string>): (r: Json)
    ensures r.JStr? && !PhpFalsyString(r.s)
  {
    JStr(EncodeStringList(paths))
  }

  /** decode reads the JSON text of paths back as the list of paths, as
      json_decode inverts json_encode. */
  predicate DecodesPaths(decode: string -> Option<Json>, paths: seq<string>) {
    decode(EncodeStringList(paths)) == Some(PathList(paths))
  }

  /** Read through such a decoder, the encoded column stands for its paths. */
  lemma EncodedColumnEntries(paths: seq<string>, decode: string -> Option<Json>)
    requires DecodesPaths(decode, paths)
    ensures DecodeList(EncodedColumn(paths), decode) == PathList(paths).items
    ensures EntryStrings(DecodeList(EncodedColumn(paths), decode)) == Some(paths)
  {
    PathListEntryStrings(paths);
  }

  // ---------------------------------------------------------------------------
  // Finding: array_filter keeps keys

  /** A PHP array with integer keys, as (key, value) pairs in order. */
  type KeyedList = seq<(nat, string)>

  /** json_encode writes a PHP array as a JSON list only when its keys are 0, 1, 2, ... */
  predicate EncodesAsJsonList(a: KeyedList) {
    forall i :: 0 <= i < |a| ==> a[i].0 == i
  }

  /** The values of a keyed array, in order. */
  function Values(a: KeyedList): (r: seq<string>)
    ensures |r| == |a| && forall i :: 0 <= i < |a| ==> r[i] == a[i].1
  {
    seq(|a|, i requires 0 <= i < |a| => a[i].1)
  }

  /** a holds, under its own keys, exactly the truthy entries of xs: each
      key is the position of its value in xs, keys strictly increase, and
      every truthy position of xs appears as a key. */
  predicate TruthyUnderOwnKeys(a: KeyedList, xs: seq<string>) {
    && (forall i :: 0 <= i < |a| ==> a[i].0 < |xs| && xs[a[i].0] == a[i].1 && PhpTruthyString(a[i].1))
    && (forall i, j :: 0 <= i < j < |a| ==> a[i].0 < a[j].0)
    && (forall k :: 0 <= k < |xs| && PhpTruthyString(xs[k]) ==> exists i :: 0 <= i < |a| && a[i].0 == k)
  }

  /** PHP's array_filter on a list: the truthy values with their original
      keys, in order. */
  function KeyedFilter(xs: seq<string>): (r: KeyedList)
    ensures TruthyUnderOwnKeys(r, xs)
  {
    var ix := KeptIndices(xs, PhpTruthyString);
    var r := seq(|ix|, i requires 0 <= i < |ix| => (ix[i], xs[ix[i]]));
    KeyedAtEveryKept(xs, ix, r);
    r
  }

  /** Every kept position of xs is the key of some pair of r. */
  lemma KeyedAtEveryKept(xs: seq<string>, ix: seq<nat>, r: KeyedList)
    requires ix == KeptIndices(xs, PhpTruthyString)
    requires |r| == |ix| && forall i :: 0 <= i < |ix| ==> r[i].0 == ix[i]
    ensures forall k :: 0 <= k < |xs| && PhpTruthyString(xs[k]) ==> exists i :: 0 <= i < |r| && r[i].0 == k
  {
    forall k | 0 <= k < |xs| && PhpTruthyString(xs[k])
      ensures exists i :: 0 <= i < |r| && r[i].0 == k
    {
      assert k in ix;
      var i :| 0 <= i < |ix| && ix[i] == k;
      assert r[i].0 == k;
    }
  }

  /** array_filter keeps the same values, in the same order, as Filter. */
  lemma KeyedFilterValues(xs: seq<string>)
    ensures Values(KeyedFilter(xs)) == Filter(xs, PhpTruthyString)
  {
    FilterKeptInOrder(xs, PhpTruthyString);
  }

  /** The last step of getImageUrls as written: array_filter's result with
      its keys, or the placeholder alone under key 0 when nothing is kept. */
  function KeyedOrPlaceholder(cleaned: seq<string>): (r: KeyedList)
    ensures Values(r) == KeepOrPlaceholder(cleaned)
    ensures (forall k :: 0 <= k < |cleaned| ==> PhpFalsyString(cleaned[k])) ==> r == [(0, BackendPlaceholder)]
    ensures (exists k :: 0 <= k < |cleaned| && PhpTruthyString(cleaned[k])) ==> TruthyUnderOwnKeys(r, cleaned)
  {
    var kept := KeyedFilter(cleaned);
    KeyedFilterEmpty(cleaned);
    PlaceholderValues();
    if kept == [] then [(0, BackendPlaceholder)] else kept
  }

  /** The placeholder pair lists the placeholder alone. */
  lemma PlaceholderValues()
    ensures Values([(0, BackendPlaceholder)]) == [BackendPlaceholder]
  {
  }

  /** getImageUrls as written: array_filter's result goes to the response with
      its keys, so a dropped entry before a kept one leaves a gap in the keys. */
  function GetImageUrlsAsWritten(field: Json, decode: string -> Option<Json>): (r: Option<KeyedList>)
    ensures r.Some? <==> GetImageUrls(field, decode).Some?
    ensures r.Some? ==> Values(r.value) == GetImageUrls(field, decode).value
    ensures r.Some? ==> var cleaned := CleanedImages(field, decode).value;
      && ((forall k :: 0 <= k < |cleaned| ==> PhpFalsyString(cleaned[k])) ==> r.value == [(0, BackendPlaceholder)])
      && ((exists k :: 0 <= k < |cleaned| && PhpTruthyString(cleaned[k])) ==> TruthyUnderOwnKeys(r.value, cleaned))
  {
    match CleanedImages(field, decode)
    case None => None
    case Some(cleaned) => Some(KeyedOrPlaceholder(cleaned))
  }

  /** array_filter leaves nothing exactly when every entry is falsy, and
      what it leaves has the values KeepOrPlaceholder keeps. */
  lemma KeyedFilterEmpty(cleaned: seq<string>)
    ensures (forall k :: 0 <= k < |cleaned| ==> PhpFalsyString(cleaned[k])) ==> KeyedFilter(cleaned) == []
    ensures (exists k :: 0 <= k < |cleaned| && PhpTruthyString(cleaned[k])) ==> KeyedFilter(cleaned) != []
    ensures KeyedFilter(cleaned) == [] ==> KeepOrPlaceholder(cleaned) == [BackendPlaceholder]
    ensures KeyedFilter(cleaned) != [] ==> Values(KeyedFilter(cleaned)) == KeepOrPlaceholder(cleaned)
  {
    KeyedFilterValues(cleaned);
    KeptTruthyStrings(cleaned);
  }

  /** The gap shows whenever a blank entry precedes a product path: the
      response is the JSON object {"1": url} rather than a list. */
  lemma AsWrittenGivesJsonObject(path: string, decode: string -> Option<Json>)
    requires StoredProductPath(path) && DecodesPaths(decode, ["", path])
    ensures var r := GetImageUrlsAsWritten(EncodedColumn(["", path]), decode);
      r == Some([(1, Asset("storage/" + path))]) && !EncodesAsJsonList(r.value)
  {
    var url := Asset("storage/" + path);
    BlankThenPathCleaned(path, decode);
    KeyedFilterGap("", url);
  }

  /** array_filter on a falsy entry followed by a truthy one keeps the second under key 1. */
  lemma KeyedFilterGap(a: string, b: string)
    requires PhpFalsyString(a) && PhpTruthyString(b)
    ensures KeyedFilter([a, b]) == [(1, b)]
  {
    var xs := [a, b];
    assert xs[..1] == [a] && [a][..0] == [];
    assert KeptIndices([a], PhpTruthyString) == [];
    assert KeptIndices(xs, PhpTruthyString) == [1];
  }

  /** A blank entry followed by a product path cleans to a blank entry and
      the path's storage URL. */
  lemma BlankThenPathCleaned(path: string, decode: string -> Option<Json>)
    requires StoredProductPath(path) && DecodesPaths(decode, ["", path])
    ensures CleanedImages(EncodedColumn(["", path]), decode) == Some(["", Asset("storage/" + path)])
  {
    var field := EncodedColumn(["", path]);
    EncodedColumnEntries(["", path], decode);
    CleanBlank();
    CleanProductPath(path);
    var entries := DecodeList(field, decode);
    assert |entries| == 2 && !IsPhpArray(entries[0]) && !IsPhpArray(entries[1]);
    var cleaned := CleanedImages(field, decode).value;
    assert cleaned == [CleanImage(""), CleanImage(path)];
  }

  /** A blank entry stays blank. */
  lemma CleanBlank()
    ensures CleanImage("") == ""
  {
    NotPrefixAt("", "products/", 0);
  }

  /** A path under products/ whose ends the controller does not trim becomes
      its public storage URL. */
  lemma CleanProductPath(path: string)
    requires StoredProductPath(path)
    ensures CleanImage(path) == Asset("storage/" + path)
  {
    ControllerKeepsProductPath(path);
  }

  /** The controller's trim leaves such a path as it is. */
  lemma ControllerKeepsProductPath(path: string)
    requires StoredProductPath(path)
    ensures PhpTrim(path, ControllerTrim) == path
  {
    PrefixChar(path, "products/", 0);
    PhpTrimUnique(path, ControllerTrim, 0, |path|);
  }

  /** PHP's array_values: the same values under keys 0, 1, 2, ... */
  function Reindex(a: KeyedList): (r: KeyedList)
    ensures EncodesAsJsonList(r)
    ensures Values(r) == Values(a)
  {
    seq(|a|, i requires 0 <= i < |a| => (i, a[i].1))
  }

  /** getImageUrls corrected with array_values: always a JSON list, holding
      exactly the URLs the rest of the model uses. */
  function ReindexedImageUrls(field: Json, decode: string -> Option<Json>): (r: Option<KeyedList>)
    ensures r.Some? <==> GetImageUrls(field, decode).Some?
    ensures r.Some? ==> EncodesAsJsonList(r.value) && Values(r.value) == GetImageUrls(field, decode).value
  {
    match GetImageUrlsAsWritten(field, decode)
    case None => None
    case Some(a) => Some(Reindex(a))
  }

  // ---------------------------------------------------------------------------
  // Frontend

  /** Base of the public storage directory the pages hard-code. */
  const FrontStorage: string := "http://127.0.0.1:8000/storage/"

  /** The frontend's own fallback image. */
  const FrontPlaceholder: string := "/placeholder.png"

  /** Origin normalizeImageUrl prefixes. */
  const ApiOrigin: string := "http://127.0.0.1:8000/"

  predicate IsAbsoluteHttp(path: string) {
    StartsWith(path, "http://") || StartsWith(path, "https://")
  }

  /** getImageUrl of the products page. */
  function ProductPageImageUrl(path: string): (r: string)
    ensures path == "" ==> r == FrontPlaceholder
    ensures IsAbsoluteHttp(path) ==> r == path
    ensures StartsWith(path, "products/") ==> r == FrontStorage + path
    ensures path != "" && !IsAbsoluteHttp(path) && !StartsWith(path, "products/") ==> r == path
  {
    if path == "" then FrontPlaceholder
    else if IsAbsoluteHttp(path) then
      HttpIsNotProducts(path);
      path
    else if StartsWith(path, "products/") then FrontStorage + path
    else path
  }

  /** No path is both an http URL and a products/ path. */
  lemma HttpIsNotProducts(path: string)
    ensures IsAbsoluteHttp(path) ==> !StartsWith(path, "products/") && !StartsWith(path, "/products/")
  {
    if StartsWith(path, "http://") {
      PrefixChar(path, "http://", 0);
    } else if StartsWith(path, "https://") {
      PrefixChar(path, "https://", 0);
    }
    if IsAbsoluteHttp(path) {
      NotPrefixAt(path, "products/", 0);
      NotPrefixAt(path, "/products/", 0);
    }
  }

  /** The frontend placeholder is left alone by both page helpers. */
  lemma PlaceholderIsPlain()
    ensures !IsAbsoluteHttp(FrontPlaceholder)
    ensures !StartsWith(FrontPlaceholder, "products/") && !StartsWith(FrontPlaceholder, "/products/")
  {
    NotPrefixAt(FrontPlaceholder, "http://", 0);
    NotPrefixAt(FrontPlaceholder, "https://", 0);
    NotPrefixAt(FrontPlaceholder, "products/", 0);
    NotPrefixAt(FrontPlaceholder, "/products/", 2);
  }

  /** getImageUrl of the new-arrivals carousel: also accepts `/products/`,
      dropping that one leading slash. */
  function CarouselImageUrl(path: string): (r: string)
    ensures path == "" ==> r == FrontPlaceholder
    ensures IsAbsoluteHttp(path) ==> r == path
    ensures StartsWith(path, "products/") ==> r == FrontStorage + path
    ensures StartsWith(path, "/products/") ==> r == FrontStorage + path[1..]
    ensures (path != "" && !IsAbsoluteHttp(path) && !StartsWith(path, "products/")
              && !StartsWith(path, "/products/")) ==> r == path
  {
    if path == "" then FrontPlaceholder
    else if IsAbsoluteHttp(path) then
      HttpIsNotProducts(path);
      path
    else if StartsWith(path, "/products/") || StartsWith(path, "products/") then
      FrontStorage + (if path[0] == '/' then path[1..] else path)
    else path
  }

  /** getImageUrl of the testimonials section. */
  function TestimonialImageUrl(img: string): (r: string)
    ensures img == "" ==> r == FrontPlaceholder
    ensures img != "" && StartsWith(img, "http") ==> r == img
    ensures img != "" && !StartsWith(img, "http") ==> r == FrontStorage + img
  {
    if img == "" then FrontPlaceholder
    else if StartsWith(img, "http") then img
    else FrontStorage + img
  }

  /** A prefix of p is a prefix of p + s. */
  lemma StartsWithConcat(p: string, s: string, q: string)
    requires StartsWith(p, q)
    ensures StartsWith(p + s, q)
  {
    assert (p + s)[..|q|] == p[..|q|];
  }

  /** The products page's getImageUrl is idempotent: a second pass changes nothing. */
  lemma ProductPageImageUrlIdempotent(path: string)
    ensures ProductPageImageUrl(ProductPageImageUrl(path)) == ProductPageImageUrl(path)
  {
    PlaceholderIsPlain();
    if path != "" && !IsAbsoluteHttp(path) && StartsWith(path, "products/") {
      StartsWithConcat(FrontStorage, path, "http://");
    }
  }

  /** The carousel's getImageUrl is idempotent. */
  lemma CarouselImageUrlIdempotent(path: string)
    ensures CarouselImageUrl(CarouselImageUrl(path)) == CarouselImageUrl(path)
  {
    PlaceholderIsPlain();
    if path != "" && !IsAbsoluteHttp(path) && (StartsWith(path, "/products/") || StartsWith(path, "products/")) {
      StartsWithConcat(FrontStorage, if path[0] == '/' then path[1..] else path, "http://");
    }
  }

  /** The carousel agrees with the products page on every path except the
      `/products/` ones, which only the carousel rewrites. */
  lemma CarouselAgreesWithProductPage(path: string)
    ensures !StartsWith(path, "/products/") ==> CarouselImageUrl(path) == ProductPageImageUrl(path)
    ensures StartsWith(path, "/products/") ==> ProductPageImageUrl(path) == path
  {
    if StartsWith(path, "/products/") {
      assert path[0] == '/';
    }
  }

  /** The URLs the backend builds with asset() pass through every frontend
      helper unchanged. */
  lemma FrontendKeepsBackendUrls(path: string)
    ensures ProductPageImageUrl(Asset(path)) == Asset(path)
    ensures CarouselImageUrl(Asset(path)) == Asset(path)
    ensures TestimonialImageUrl(Asset(path)) == Asset(path)
  {
    var rest := "127.0.0.1:8000/" + PhpTrim(path, {'/'});
    assert Asset(path) == "http://" + rest;
    StartsWithConcat("http://", rest, "http://");
    StartsWithConcat("http://", rest, "http");
  }

  /** An images value as the products API types it: a list or a single string. */
  datatype ImagesInput = ImageList(items: seq<Json>) | ImageText(text: string)

  /** parseImages: a list as it is, a string holding a JSON list as that list,
      any other string as a one-element list. */
  function ParseImages(input: ImagesInput, parse: string -> Option<Json>): (r: seq<Json>)
    ensures input.ImageList? ==> r == input.items
    ensures (input.ImageText? && parse(input.text).Some? && parse(input.text).value.JArr?)
              ==> r == parse(input.text).value.items
    ensures (input.ImageText? && !(parse(input.text).Some? && parse(input.text).value.JArr?))
              ==> r == [JStr(input.text)]
  {
    match input
    case ImageList(items) => items
    case ImageText(text) =>
      var parsed := parse(text);
      if parsed.Some? && parsed.value.JArr? then parsed.value.items else [JStr(text)]
  }

  /** s without its leading slashes (s.replace(/^\/+/, "")). */
  function StripLeadingSlashes(s: string): (r: string)
    ensures exists n :: 0 <= n <= |s| && r == s[n..] && forall k :: 0 <= k < n ==> s[k] == '/'
    ensures r == [] || r[0] != '/'
  {
    s[LeadingRun(s, {'/'})..]
  }

  /** normalizeImageUrl: an http URL as it is, anything else placed under the
      API origin without its leading slashes. */
  function NormalizeImageUrl(img: string): (r: string)
    ensures StartsWith(img, "http") ==> r == img
    ensures !StartsWith(img, "http") ==> r == ApiOrigin + StripLeadingSlashes(img)
    ensures StartsWith(r, "http")
  {
    if StartsWith(img, "http") then img
    else
      StartsWithConcat(ApiOrigin, StripLeadingSlashes(img), "http");
      ApiOrigin + StripLeadingSlashes(img)
  }

  /** normalizeImageUrl is idempotent, since every result starts with http. */
  lemma NormalizeImageUrlIdempotent(img: string)
    ensures NormalizeImageUrl(NormalizeImageUrl(img)) == NormalizeImageUrl(img)
  {
  }

  /** The filter of safeJSONParse: a string that is not blank. */
  predicate NonBlankText(j: Json) {
    j.JStr? && !IsBlank(j.s)
  }

  /** The texts of a list of JSON strings, in order. */
  function Texts(items: seq<Json>): (r: seq<string>)
    requires forall i :: 0 <= i < |items| ==> items[i].JStr?
    ensures |r| == |items| && forall i :: 0 <= i < |items| ==> JStr(r[i]) == items[i]
  {
    seq(|items|, i requires 0 <= i < |items| => items[i].s)
  }

  /** parsed.filter(url => typeof url === 'string' && url.trim() !== ''):
      the non-blank strings of the list, in order and with repeats. */
  function NonBlankTexts(items: seq<Json>): (r: seq<string>)
    ensures forall i :: 0 <= i < |r| ==> !IsBlank(r[i])
    ensures var ix := KeptIndices(items, NonBlankText);
      |r| == |ix| && forall k :: 0 <= k < |r| ==> JStr(r[k]) == items[ix[k]]
    ensures forall s :: s in r <==> JStr(s) in items && !IsBlank(s)
  {
    var kept := Filter(items, NonBlankText);
    FilterKeptInOrder(items, NonBlankText);
    assert forall i :: 0 <= i < |kept| ==> kept[i] in kept;
    var r := Texts(kept);
    assert forall s :: s in r <==> JStr(s) in kept by {
      forall s ensures s in r <==> JStr(s) in kept {
        if JStr(s) in kept {
          var i :| 0 <= i < |kept| && kept[i] == JStr(s);
          assert r[i] == s;
        }
      }
    }
    r
  }

  /** safeJSONParse of the products page: a JSON list keeps its non-blank
      strings, in order and with repeats; a JSON string is a one-element list
      unless blank; any other JSON value is the empty list; text that is not
      JSON is a one-element list of itself unless blank. */
  function SafeJsonParse(text: string, parse: string -> Option<Json>): (r: seq<string>)
    ensures forall i :: 0 <= i < |r| ==> !IsBlank(r[i])
    ensures parse(text).Some? && parse(text).value.JArr? ==>
              var items := parse(text).value.items;
              var ix := KeptIndices(items, NonBlankText);
              |r| == |ix| && forall k :: 0 <= k < |r| ==> JStr(r[k]) == items[ix[k]]
    ensures parse(text).Some? && parse(text).value.JArr? ==>
              forall s :: s in r <==> JStr(s) in parse(text).value.items && !IsBlank(s)
    ensures parse(text).Some? && parse(text).value.JStr? ==>
              r == (if IsBlank(parse(text).value.s) then [] else [parse(text).value.s])
    ensures parse(text).Some? && !parse(text).value.JArr? && !parse(text).value.JStr? ==> r == []
    ensures parse(text).None? ==> r == (if IsBlank(text) then [] else [text])
  {
    match parse(text)
    case Some(JArr(items)) => NonBlankTexts(items)
    case Some(JStr(s)) => if IsBlank(s) then [] else [s]
    case Some(_) => []
    case None => if IsBlank(text) then [] else [text]
  }

  /** The JSON array of some non-blank strings parses back to exactly those
      strings, in order. */
  lemma SafeJsonParseOfTexts(text: string, parse: string -> Option<Json>, xs: seq<string>)
    requires forall i :: 0 <= i < |xs| ==> !IsBlank(xs[i])
    requires parse(text) == Some(JArr(seq(|xs|, i requires 0 <= i < |xs| => JStr(xs[i]))))
    ensures SafeJsonParse(text, parse) == xs
  {
    NonBlankTextsOfTexts(parse(text).value.items, xs);
  }

  /** The filter keeps a list of non-blank JSON strings whole. */
  lemma NonBlankTextsOfTexts(items: seq<Json>, xs: seq<string>)
    requires forall i :: 0 <= i < |xs| ==> !IsBlank(xs[i])
    requires items == seq(|xs|, i requires 0 <= i < |xs| => JStr(xs[i]))
    ensures NonBlankTexts(items) == xs
  {
    assert forall i :: 0 <= i < |items| ==> NonBlankText(items[i]);
    FilterIdentity(items, NonBlankText);
    var r := Texts(items);
    assert forall i :: 0 <= i < |xs| ==> r[i] == xs[i];
  }

  /** On text that parses to a list of non-blank strings, parseImages and
      safeJSONParse agree: the same strings, in the same order. */
  lemma ParseImagesAgreesWithSafeJsonParse(text: string, parse: string -> Option<Json>, xs: seq<string>)
    requires forall i :: 0 <= i < |xs| ==> !IsBlank(xs[i])
    requires parse(text) == Some(JArr(seq(|xs|, i requires 0 <= i < |xs| => JStr(xs[i]))))
    ensures var r := ParseImages(ImageText(text), parse);
      |r| == |SafeJsonParse(text, parse)| && forall i :: 0 <= i < |r| ==> r[i] == JStr(SafeJsonParse(text, parse)[i])
  {
    SafeJsonParseOfTexts(text, parse, xs);
  }

  /** JavaScript truthiness of a JSON value. */
  predicate JsTruthy(j: Json) {
    match j
    case JNull => false
    case JBool(b) => b
    case JNum(n) => n != 0
    case JStr(s) => s != ""
    case JArr(_) => true
    case JObj(_) => true
  }

  /** The carousel's getImageUrl applied to a value of any type: a falsy value
      gives the placeholder, a string is rewritten, anything else makes
      startsWith throw (None). */
  function CarouselEntryUrl(e: Json): (r: Option<string>)
    ensures !JsTruthy(e) ==> r == Some(FrontPlaceholder)
    ensures JsTruthy(e) && e.JStr? ==> r == Some(CarouselImageUrl(e.s))
    ensures JsTruthy(e) && !e.JStr? ==> r.None?
  {
    if !JsTruthy(e) then Some(FrontPlaceholder)
    else if e.JStr? then Some(CarouselImageUrl(e.s))
    else None
  }

  /** Maps CarouselEntryUrl over a list; None when any entry throws. */
  function CarouselEntryUrls(items: seq<Json>): (r: Option<seq<string>>)
    ensures r.Some? <==> forall i :: 0 <= i < |items| ==> CarouselEntryUrl(items[i]).Some?
    ensures r.Some? ==> |r.value| == |items|
    ensures r.Some? ==> forall i :: 0 <= i < |items| ==> CarouselEntryUrl(items[i]) == Some(r.value[i])
  {
    if items == [] then Some([])
    else
      match (CarouselEntryUrl(items[0]), CarouselEntryUrls(items[1..]))
      case (Some(u), Some(rest)) =>
        var r := [u] + rest;
        assert forall i :: 1 <= i < |items| ==> items[i] == items[1..][i - 1] && r[i] == rest[i - 1];
        Some(r)
      case (None, _) => None
      case (_, None) =>
        assert forall i :: 1 <= i < |items| ==> items[i] == items[1..][i - 1];
        None
  }

  /** The images of one carousel product: a list mapped element by element,
      anything else as a one-element list defaulting to the placeholder. */
  function CarouselImages(images: Json): (r: Option<seq<string>>)
    ensures images.JArr? ==>
              (r.Some? <==> forall i :: 0 <= i < |images.items| ==> CarouselEntryUrl(images.items[i]).Some?)
    ensures images.JArr? && r.Some? ==>
              && |r.value| == |images.items|
              && forall i :: 0 <= i < |images.items| ==> CarouselEntryUrl(images.items[i]) == Some(r.value[i])
    ensures !images.JArr? && !JsTruthy(images) ==> r == Some([FrontPlaceholder])
    ensures images.JStr? && images.s != "" ==> r == Some([CarouselImageUrl(images.s)])
    ensures !images.JArr? && JsTruthy(images) && !images.JStr? ==> r.None?
  {
    if images.JArr? then CarouselEntryUrls(images.items)
    else
      PlaceholderIsPlain();
      var v := if JsTruthy(images) then images else JStr(FrontPlaceholder);
      match CarouselEntryUrl(v)
      case None => None
      case Some(u) => Some([u])
  }

  /** JavaScript's `a ?? b` on an object member that may be missing. */
  function Nullish(v: Option<Json>): bool {
    v.None? || v.value.JNull?
  }

  /** The carousel's unwrapping of the new-arrivals response: the array
      itself, else `.products`, else `.data`, else []; None when the chosen
      value has no map method or the response is null. */
  function UnwrapProducts(raw: Json): (r: Option<seq<Json>>)
    ensures raw.JArr? ==> r == Some(raw.items)
    ensures raw.JNull? ==> r.None?
    ensures raw.JBool? || raw.JNum? || raw.JStr? ==> r == Some([])
    ensures raw.JObj? && Nullish(Lookup(raw.entries, "products")) && Nullish(Lookup(raw.entries, "data")) ==> r == Some([])
    ensures raw.JObj? && !Nullish(Lookup(raw.entries, "products")) ==>
              (r.Some? <==> Lookup(raw.entries, "products").value.JArr?)
    ensures raw.JObj? && r.Some? && !Nullish(Lookup(raw.entries, "products")) ==>
              r.value == Lookup(raw.entries, "products").value.items
    ensures raw.JObj? && Nullish(Lookup(raw.entries, "products")) && !Nullish(Lookup(raw.entries, "data")) ==>
              (r.Some? <==> Lookup(raw.entries, "data").value.JArr?)
    ensures raw.JObj? && r.Some? && Nullish(Lookup(raw.entries, "products")) && !Nullish(Lookup(raw.entries, "data")) ==>
              r.value == Lookup(raw.entries, "data").value.items
  {
    match raw
    case JArr(items) => Some(items)
    case JNull => None
    case JObj(entries) =>
      var products := Lookup(entries, "products");
      var data := Lookup(entries, "data");
      var chosen := if !Nullish(products) then products.value else if !Nullish(data) then data.value else JArr([]);
      if chosen.JArr? then Some(chosen.items) else None
    case _ => Some([])
  }

  /** A product list comes out of every response shape the carousel accepts:
      the bare array, and an object holding it under products or under data. */
  lemma UnwrapProductsShapes(xs: seq<Json>)
    ensures UnwrapProducts(JArr(xs)) == Some(xs)
    ensures UnwrapProducts(JObj([("products", JArr(xs))])) == Some(xs)
    ensures UnwrapProducts(JObj([("data", JArr(xs))])) == Some(xs)
    ensures UnwrapProducts(JObj([("products", JNull), ("data", JArr(xs))])) == Some(xs)
  {
  }

  /** A list of URLs the backend built with asset() goes through the
      carousel unchanged. */
  lemma CarouselKeepsBackendUrls(paths: seq<string>)
    ensures var urls := seq(|paths|, i requires 0 <= i < |paths| => Asset(paths[i]));
      CarouselImages(JArr(seq(|paths|, i requires 0 <= i < |paths| => JStr(Asset(paths[i]))))) == Some(urls)
  {
    var urls := seq(|paths|, i requires 0 <= i < |paths| => Asset(paths[i]));
    var items := seq(|paths|, i requires 0 <= i < |paths| => JStr(Asset(paths[i])));
    forall i | 0 <= i < |paths|
      ensures CarouselEntryUrl(items[i]) == Some(urls[i])
    {
      FrontendKeepsBackendUrls(paths[i]);
      assert items[i] == JStr(Asset(paths[i])) && Asset(paths[i]) != "";
      assert JsTruthy(items[i]);
    }
    var r := CarouselImages(JArr(items));
    assert r.Some? && |r.value| == |urls|;
    assert forall i :: 0 <= i < |urls| ==> r.value[i] == urls[i];
    assert r.value == urls;
  }
}
