/** The catalogue handlers of the backend: product search, the newest
    arrivals, the partial product update, and the testimonial listing, store
    and update. Stored files are given by the paths the storage layer returned;
    image and avatar columns hold the value json_encode wrote, as the array
    cast reads it back. */
module Catalog {
  import opened Common
  import opened Strings
  import Sorting
  import opened Images

  // ---------------------------------------------------------------------------
  // Products

  datatype Product = Product(
    id: nat,
    name: string,
    price: string,
    description: Option<string>,
    categoryId: nat,
    images: Json,
    createdAt: nat)

  /** The search condition of ProductController::index: the term occurs in
      the name or in a non-null description. */
  predicate MatchesSearch(p: Product, term: string) {
    Contains(p.name, term) || (p.description.Some? && Contains(p.description.value, term))
  }

  function SearchFor(term: string): Product -> bool {
    p => MatchesSearch(p, term)
  }

  /** ProductController::index: every product, or with a search term exactly
      the matching ones in their stored order. */
  function SearchProducts(products: seq<Product>, search: Option<string>): (r: seq<Product>)
    ensures search.None? ==> r == products
    ensures search.Some? ==> forall p :: p in r <==> p in products && MatchesSearch(p, search.value)
    ensures search.Some? ==> forall p :: multiset(r)[p] == if MatchesSearch(p, search.value) then multiset(products)[p] else 0
  {
    if search.None? then products else Filter(products, SearchFor(search.value))
  }

  /** An empty search term matches every product. */
  lemma EmptySearchKeepsAll(products: seq<Product>)
    ensures SearchProducts(products, Some("")) == products
  {
    forall p | p in products ensures MatchesSearch(p, "") {
      assert OccursAt(p.name, "", 0);
    }
    FilterIdentity(products, SearchFor(""));
    assert forall i :: 0 <= i < |products| ==> products[i] in products;
  }

  /** Sort key for newest first. */
  function NewestFirst(p: Product): int {
    -(p.createdAt as int)
  }

  /** How many products the new-arrivals endpoint returns. */
  const ArrivalsCount: nat := 4

  /** ProductController::newArrivals: the products ordered by created_at
      descending, the first four of them. */
  function NewArrivals(products: seq<Product>): (r: seq<Product>)
    ensures |r| == if |products| < ArrivalsCount then |products| else ArrivalsCount
    ensures forall i, j :: 0 <= i < j < |r| ==> r[i].createdAt >= r[j].createdAt
    ensures multiset(r) <= multiset(products)
  {
    var sorted := Sorting.SortBy(products, NewestFirst);
    var n := if |sorted| < ArrivalsCount then |sorted| else ArrivalsCount;
    Sorting.SortedPrefix(sorted, n, NewestFirst);
    sorted[..n]
  }

  /** No product left out of the new arrivals is newer than one shown. */
  lemma NewArrivalsAreNewest(products: seq<Product>, p: Product, q: Product)
    requires p in products && p !in NewArrivals(products)
    requires q in NewArrivals(products)
    ensures q.createdAt >= p.createdAt
  {
    var sorted := Sorting.SortBy(products, NewestFirst);
    var n := if |sorted| < ArrivalsCount then |sorted| else ArrivalsCount;
    var shown := sorted[..n];
    assert NewArrivals(products) == shown;
    assert p in multiset(products);
    assert p in sorted by {
      assert p in multiset(sorted);
    }
    var k :| 0 <= k < |sorted| && sorted[k] == p;
    var i :| 0 <= i < n && shown[i] == q;
    assert shown[i] == sorted[i];
    assert forall m :: 0 <= m < n ==> sorted[m] != p;
    assert i < k;
    assert NewestFirst(sorted[i]) <= NewestFirst(sorted[k]);
  }

  /** A product request of store or update: a missing field is None;
      description may be sent as null; uploaded holds the stored paths of the
      uploaded files. */
  datatype ProductInput = ProductInput(
    name: Option<string>,
    price: Option<string>,
    description: Option<Option<string>>,
    categoryId: Option<nat>,
    uploaded: seq<string>)

  /** ProductController::update: each field takes the request's value when
      sent and keeps the old one otherwise; the images are replaced only when
      files were uploaded. */
  function UpdateProduct(p: Product, input: ProductInput): (r: Product)
    ensures r.id == p.id && r.createdAt == p.createdAt
    ensures r.name == (if input.name.Some? then input.name.value else p.name)
    ensures r.price == (if input.price.Some? then input.price.value else p.price)
    ensures r.description == (if input.description.Some? then input.description.value else p.description)
    ensures r.categoryId == (if input.categoryId.Some? then input.categoryId.value else p.categoryId)
    ensures |input.uploaded| > 0 ==> r.images == EncodedColumn(input.uploaded)
    ensures |input.uploaded| == 0 ==> r.images == p.images
  {
    var merged := p.(
      name := if input.name.Some? then input.name.value else p.name,
      price := if input.price.Some? then input.price.value else p.price,
      description := if input.description.Some? then input.description.value else p.description,
      categoryId := if input.categoryId.Some? then input.categoryId.value else p.categoryId);
    if |input.uploaded| > 0 then merged.(images := EncodedColumn(input.uploaded)) else merged
  }

  /** The validation of ProductController::store: name and price present and
      filled, a category id; the description may be missing or null. */
  predicate ProductInputValid(input: ProductInput)
    ensures input.name.Some? && !Filled(input.name.value) ==> !ProductInputValid(input)
    ensures input.price.Some? && !Filled(input.price.value) ==> !ProductInputValid(input)
  {
    && input.name.Some? && Filled(input.name.value)
    && input.price.Some? && Filled(input.price.value)
    && input.categoryId.Some?
  }

  /** ProductController::store: a valid request creates the product, its
      images column holding the uploaded paths in upload order; an invalid
      request creates nothing (the 422 response). */
  function StoreProduct(input: ProductInput, newId: nat, now: nat): (r: Option<Product>)
    ensures r.Some? <==> ProductInputValid(input)
    ensures r.Some? ==> r.value.id == newId && r.value.createdAt == now
    ensures r.Some? ==> r.value.name == input.name.value && r.value.price == input.price.value
    ensures r.Some? ==> r.value.description == OrNull(input.description)
    ensures r.Some? ==> r.value.categoryId == input.categoryId.value
    ensures r.Some? ==> r.value.images == EncodedColumn(input.uploaded)
  {
    if !ProductInputValid(input) then None
    else
      Some(Product(newId, input.name.value, input.price.value, OrNull(input.description),
                   input.categoryId.value, EncodedColumn(input.uploaded), now))
  }

  /** Store then list: a stored product's images are listed as the storage
      URLs of its uploads, or the placeholder alone when there were none. */
  lemma StoreThenListImages(input: ProductInput, newId: nat, now: nat, decode: string -> Option<Json>)
    requires ProductInputValid(input)
    requires forall i :: 0 <= i < |input.uploaded| ==> StoredProductPath(input.uploaded[i])
    requires DecodesPaths(decode, input.uploaded)
    ensures GetImageUrls(StoreProduct(input, newId, now).value.images, decode)
         == Some(if input.uploaded == [] then [BackendPlaceholder] else StorageUrls(input.uploaded))
  {
    StoredImagesRoundTrip(input.uploaded, decode);
  }

  /** Storing then updating with the same fields and no files gives back the stored product. */
  lemma UpdateWithStoredFieldsIsIdentity(input: ProductInput, newId: nat, now: nat)
    requires ProductInputValid(input)
    ensures var p := StoreProduct(input, newId, now).value;
      UpdateProduct(p, input.(description := Some(p.description), uploaded := [])) == p
  {
  }

  /** An update that sends nothing changes nothing. */
  lemma EmptyUpdateIsIdentity(p: Product)
    ensures UpdateProduct(p, ProductInput(None, None, None, None, [])) == p
  {
  }

  /** The public storage URL of each stored path, in order. */
  function StorageUrls(paths: seq<string>): (r: seq<string>)
    ensures |r| == |paths|
    ensures forall i :: 0 <= i < |paths| ==> r[i] == Asset("storage/" + paths[i])
  {
    seq(|paths|, i requires 0 <= i < |paths| => Asset("storage/" + paths[i]))
  }

  /** Cleaning a just-stored images column yields the storage URLs. */
  lemma CleanedStoredPaths(paths: seq<string>, decode: string -> Option<Json>)
    requires forall i :: 0 <= i < |paths| ==> StoredProductPath(paths[i])
    requires DecodesPaths(decode, paths)
    ensures CleanedImages(EncodedColumn(paths), decode) == Some(StorageUrls(paths))
  {
    var field := EncodedColumn(paths);
    EncodedColumnEntries(paths, decode);
    assert CleanedImages(field, decode) == Some(CleanAll(paths));
    CleanAllStored(paths);
  }

  /** Every path cleaned as the controller cleans an entry. */
  function CleanAll(paths: seq<string>): (r: seq<string>)
    ensures |r| == |paths|
    ensures forall i :: 0 <= i < |paths| ==> r[i] == CleanImage(paths[i])
  {
    seq(|paths|, i requires 0 <= i < |paths| => CleanImage(paths[i]))
  }

  /** Stored product paths clean to their storage URLs. */
  lemma CleanAllStored(paths: seq<string>)
    requires forall i :: 0 <= i < |paths| ==> StoredProductPath(paths[i])
    ensures CleanAll(paths) == StorageUrls(paths)
  {
    forall i | 0 <= i < |paths| ensures CleanAll(paths)[i] == StorageUrls(paths)[i] {
      CleanProductPath(paths[i]);
    }
  }

  /** The decoding accessor and the controller's getImageUrls agree on every
      images column the store handler writes: one storage URL per upload, or
      the placeholder when nothing was uploaded. */
  lemma AccessorAgreesWithController(paths: seq<string>, decode: string -> Option<Json>)
    requires forall i :: 0 <= i < |paths| ==> StoredProductPath(paths[i])
    requires DecodesPaths(decode, paths)
    ensures DecodedAccessorImageUrls(EncodedColumn(paths), decode) == GetImageUrls(EncodedColumn(paths), decode)
    ensures DecodedAccessorImageUrls(EncodedColumn(paths), decode)
         == Some(if paths == [] then [BackendPlaceholder] else StorageUrls(paths))
  {
    StoredImagesRoundTrip(paths, decode);
    EncodedColumnEntries(paths, decode);
    assert JArr(DecodeList(EncodedColumn(paths), decode)) == PathList(paths);
    AccessorOnPathList(paths);
  }

  /** The accessor on an attribute that holds the list of stored paths itself. */
  lemma AccessorOnPathList(paths: seq<string>)
    requires forall i :: 0 <= i < |paths| ==> StoredProductPath(paths[i])
    ensures AccessorImageUrls(PathList(paths)) == Some(if paths == [] then [BackendPlaceholder] else StorageUrls(paths))
  {
    var field := PathList(paths);
    if paths != [] {
      assert !PhpFalsy(field);
      PathListEntryStrings(paths);
      assert CastToArray(field) == field.items;
      AccessorUrlsOfStored(paths);
    }
  }

  /** The accessor as written on the column the store handler writes: it
      sees one string, the JSON text, trims its outer `["` and `"]` and puts
      the rest under storage/. No upload gives the bare storage directory;
      uploads give a single URL holding the escaped, comma-joined paths. */
  lemma AccessorOnEncodedColumn(paths: seq<string>)
    requires forall i :: 0 <= i < |paths| ==> StoredProductPath(paths[i])
    ensures paths == [] ==> AccessorImageUrls(EncodedColumn(paths)) == Some([AppUrl + "/storage"])
    ensures paths != [] ==> AccessorImageUrls(EncodedColumn(paths)) == Some([Asset("storage/" + JoinEscaped(paths))])
  {
    if paths == [] {
      AccessorOnEmptyColumn();
    } else {
      AccessorOnUploads(paths);
    }
  }

  /** The column of a product stored without files is the text `[]`. */
  lemma AccessorOnEmptyColumn()
    ensures AccessorImageUrls(EncodedColumn([])) == Some([AppUrl + "/storage"])
  {
    var text := EncodeStringList([]);
    assert text == "[]";
    AccessorOnText(text);
    PhpTrimUnique(text, AccessorTrim, 0, 0);
    assert PhpTrim(text, AccessorTrim) == [];
    assert "storage/" + PhpTrim(text, AccessorTrim) == "storage/";
    StorageDirAsset();
  }

  /** asset('storage/') is the bare storage directory. */
  lemma StorageDirAsset()
    ensures Asset("storage/") == AppUrl + "/storage"
  {
    PhpTrimUnique("storage/", {'/'}, 0, 7);
  }

  /** The column of a product stored with files is one string, `["..."]`. */
  lemma AccessorOnUploads(paths: seq<string>)
    requires paths != []
    requires forall i :: 0 <= i < |paths| ==> StoredProductPath(paths[i])
    ensures AccessorImageUrls(EncodedColumn(paths)) == Some([Asset("storage/" + JoinEscaped(paths))])
  {
    var inner := JoinEscaped(paths);
    InnerEnds(paths);
    assert inner != [] && inner[0] !in AccessorTrim && inner[|inner| - 1] !in AccessorTrim;
    ColumnOfUploads(paths, inner);
  }

  /** The column of uploads is the quoted join, read by the accessor as one text. */
  lemma ColumnOfUploads(paths: seq<string>, inner: string)
    requires paths != [] && inner == JoinEscaped(paths)
    requires inner != [] && inner[0] !in AccessorTrim && inner[|inner| - 1] !in AccessorTrim
    ensures AccessorImageUrls(EncodedColumn(paths)) == Some([Asset("storage/" + inner)])
  {
    assert EncodedColumn(paths) == JStr(Quoted(inner));
    AccessorOnBracketed(inner);
  }

  /** The accessor on the text `["inner"]`: the one URL of inner. */
  lemma AccessorOnBracketed(inner: string)
    requires inner != [] && inner[0] !in AccessorTrim && inner[|inner| - 1] !in AccessorTrim
    ensures AccessorImageUrls(JStr(Quoted(inner))) == Some([Asset("storage/" + inner)])
  {
    var text := Quoted(inner);
    AccessorOnText(text);
    TrimOuterBrackets(inner);
  }

  /** Neither end of the joined paths is a bracket, a quote or a slash. */
  lemma InnerEnds(paths: seq<string>)
    requires paths != []
    requires forall i :: 0 <= i < |paths| ==> StoredProductPath(paths[i])
    ensures var j := JoinEscaped(paths);
      j != [] && j[0] !in AccessorTrim && j[|j| - 1] !in AccessorTrim && j[|j| - 1] != '/'
  {
    JoinEscapedEnds(paths);
    assert StoredProductPath(paths[|paths| - 1]);
  }

  /** The accessor on a truthy string: one URL, from the whole string trimmed. */
  lemma AccessorOnText(text: string)
    requires !PhpFalsyString(text)
    ensures AccessorImageUrls(JStr(text)) == Some([Asset("storage/" + PhpTrim(text, AccessorTrim))])
  {
    var entries := [JStr(text)];
    assert CastToArray(JStr(text)) == entries;
    assert !IsPhpArray(entries[0]);
    var e := EntryStrings(entries);
    assert e.Some? && |e.value| == 1 && PhpToString(entries[0]) == Some(e.value[0]);
    assert e.value == [text];
    var urls := AccessorUrls([text]);
    assert |urls| == 1 && urls == [urls[0]];
  }

  /** Trimming `"[]` off `["inner"]` leaves inner when inner's ends are kept. */
  lemma TrimOuterBrackets(inner: string)
    requires inner != [] && inner[0] !in AccessorTrim && inner[|inner| - 1] !in AccessorTrim
    ensures PhpTrim(Quoted(inner), AccessorTrim) == inner
  {
    var text := Quoted(inner);
    assert text[1] == '"' && text[|text| - 2] == '"';
    PhpTrimUnique(text, AccessorTrim, 2, |text| - 2);
  }

  /** The escaped, joined paths begin with the `p` of products/ and end with
      the last character of the last path. */
  lemma {:induction false} JoinEscapedEnds(paths: seq<string>)
    requires paths != []
    requires forall i :: 0 <= i < |paths| ==> StoredProductPath(paths[i])
    ensures var j := JoinEscaped(paths);
      var last := paths[|paths| - 1];
      j != [] && last != [] && j[0] == 'p' && j[|j| - 1] == last[|last| - 1]
    decreases |paths|
  {
    EscapeProductPath(paths[0]);
    if |paths| > 1 {
      JoinEscapedEnds(paths[1..]);
      assert paths[1..][|paths| - 2] == paths[|paths| - 1];
    }
  }

  /** So the accessor and the controller never agree on a stored column:
      the placeholder differs from the bare storage directory, one upload
      gets an escaped path, and several uploads collapse into one URL. */
  lemma AccessorMissesEncodedColumn(paths: seq<string>, decode: string -> Option<Json>)
    requires forall i :: 0 <= i < |paths| ==> StoredProductPath(paths[i])
    requires DecodesPaths(decode, paths)
    ensures AccessorImageUrls(EncodedColumn(paths)) != GetImageUrls(EncodedColumn(paths), decode)
  {
    AccessorOnEncodedColumn(paths);
    StoredImagesRoundTrip(paths, decode);
    if paths == [] {
      AssetLength("storage/placeholder.png");
      assert |AppUrl + "/storage"| != |BackendPlaceholder|;
    } else if |paths| == 1 {
      OneUploadEscaped(paths[0]);
    } else {
      assert |StorageUrls(paths)| != 1;
    }
  }

  /** One upload: the accessor's URL holds the escaped path, the
      controller's the path itself, and the two differ in length. */
  lemma OneUploadEscaped(p: string)
    requires StoredProductPath(p)
    ensures Asset("storage/" + JoinEscaped([p])) != StorageUrls([p])[0]
  {
    assert JoinEscaped([p]) == JsonEscape(p);
    EscapeProductPath(p);
    StorageAssetLength(JsonEscape(p));
    StorageAssetLength(p);
  }

  /** The storage URL of a path that does not end in a slash is as long as
      the origin, "/storage/" and the path together. */
  lemma StorageAssetLength(p: string)
    requires p != [] && p[|p| - 1] != '/'
    ensures |Asset("storage/" + p)| == |AppUrl| + 9 + |p|
  {
    var q := "storage/" + p;
    assert q[0] == 's' && q[|q| - 1] == p[|p| - 1];
    AssetLength(q);
  }

  /** The length of asset(p) for a path with no slash at either end. */
  lemma AssetLength(p: string)
    requires p != [] && p[0] != '/' && p[|p| - 1] != '/'
    ensures |Asset(p)| == |AppUrl| + 1 + |p|
  {
    AssetPlain(p);
  }

  /** Stored product paths come out of the accessor's trim unchanged. */
  lemma AccessorUrlsOfStored(paths: seq<string>)
    requires forall i :: 0 <= i < |paths| ==> StoredProductPath(paths[i])
    ensures AccessorUrls(paths) == StorageUrls(paths)
  {
    forall i | 0 <= i < |paths| ensures AccessorUrls(paths)[i] == StorageUrls(paths)[i] {
      AccessorKeepsStoredPath(paths[i]);
    }
  }

  /** The accessor's trim leaves a stored product path as it is. */
  lemma AccessorKeepsStoredPath(path: string)
    requires StoredProductPath(path)
    ensures PhpTrim(path, AccessorTrim) == path
  {
    PrefixChar(path, "products/", 0);
    PhpTrimUnique(path, AccessorTrim, 0, |path|);
  }

  /** When every cleaned entry is truthy, all are kept, in order. */
  lemma KeepAllTruthy(cleaned: seq<string>)
    requires forall i :: 0 <= i < |cleaned| ==> PhpTruthyString(cleaned[i])
    ensures KeepOrPlaceholder(cleaned) == if cleaned == [] then [BackendPlaceholder] else cleaned
  {
    FilterIdentity(cleaned, PhpTruthyString);
  }

  /** Upload then list: the image URLs of a product whose images were just
      stored are the storage URLs of the uploaded paths, in upload order, or
      the placeholder alone when nothing was uploaded. */
  lemma StoredImagesRoundTrip(paths: seq<string>, decode: string -> Option<Json>)
    requires forall i :: 0 <= i < |paths| ==> StoredProductPath(paths[i])
    requires DecodesPaths(decode, paths)
    ensures GetImageUrls(EncodedColumn(paths), decode)
         == Some(if paths == [] then [BackendPlaceholder] else StorageUrls(paths))
  {
    CleanedStoredPaths(paths, decode);
    KeepAllTruthy(StorageUrls(paths));
  }

  // ---------------------------------------------------------------------------
  // Testimonials

  datatype Testimonial = Testimonial(
    id: nat,
    name: string,
    email: Option<string>,
    designation: Option<string>,
    message: string,
    avatar: Json)

  /** A testimonial request: a missing field is None; email and designation
      may be sent as null; uploaded holds the stored paths of the files. */
  datatype TestimonialInput = TestimonialInput(
    name: Option<string>,
    message: Option<string>,
    email: Option<Option<string>>,
    designation: Option<Option<string>>,
    uploaded: seq<string>)

  /** Longest name or designation the validation accepts. */
  const MaxTitle: nat := 255

  /** Laravel's nullable|string|max:255 on an optional field. Like every
      rule that is not implicit, max runs only on a value that is present
      and not blank, so null, a missing field and a blank string all pass. */
  predicate OptionalShortText(v: Option<Option<string>>) {
    v.None? || v.value.None? || !Filled(v.value.value) || |v.value.value| <= MaxTitle
  }

  /** Laravel's nullable|email on an optional field: the address check runs
      only on a value that is present and not blank. */
  predicate OptionalEmail(v: Option<Option<string>>, isEmail: string -> bool) {
    v.None? || v.value.None? || !Filled(v.value.value) || isEmail(v.value.value)
  }

  /** The validation rules of TestimonialController::store and ::update; the
      e-mail address check is the parameter isEmail. */
  predicate TestimonialValid(input: TestimonialInput, isEmail: string -> bool)
    ensures input.name.Some? && |input.name.value| > MaxTitle ==> !TestimonialValid(input, isEmail)
    ensures input.message.Some? && !Filled(input.message.value) ==> !TestimonialValid(input, isEmail)
  {
    && input.name.Some? && Filled(input.name.value) && |input.name.value| <= MaxTitle
    && input.message.Some? && Filled(input.message.value)
    && OptionalEmail(input.email, isEmail)
    && OptionalShortText(input.designation)
  }

  /** A missing optional field reads as null. */
  function OrNull(v: Option<Option<string>>): (r: Option<string>)
    ensures v.None? ==> r.None?
    ensures v.Some? ==> r == v.value
  {
    if v.Some? then v.value else None
  }

  /** TestimonialController::store: after validation, a new testimonial with
      id newId whose avatar is the list of uploaded paths (empty when none).
      None is the validation failure. */
  function StoreTestimonial(input: TestimonialInput, newId: nat, isEmail: string -> bool): (r: Option<Testimonial>)
    ensures r.Some? <==> TestimonialValid(input, isEmail)
    ensures r.Some? ==> (r.value.id == newId && r.value.name == input.name.value
                         && r.value.message == input.message.value)
    ensures r.Some? ==> r.value.email == OrNull(input.email) && r.value.designation == OrNull(input.designation)
    ensures r.Some? ==> r.value.avatar == EncodedColumn(input.uploaded)
  {
    if !TestimonialValid(input, isEmail) then None
    else Some(Testimonial(newId, input.name.value, OrNull(input.email), OrNull(input.designation),
                          input.message.value, EncodedColumn(input.uploaded)))
  }

  /** TestimonialController::update: after validation, the sent fields
      replace the old ones, and the avatar changes only when files were
      uploaded. None is the validation failure. */
  function UpdateTestimonial(t: Testimonial, input: TestimonialInput, isEmail: string -> bool): (r: Option<Testimonial>)
    ensures r.Some? <==> TestimonialValid(input, isEmail)
    ensures r.Some? ==> r.value.id == t.id && r.value.name == input.name.value && r.value.message == input.message.value
    ensures r.Some? ==> r.value.email == (if input.email.Some? then input.email.value else t.email)
    ensures r.Some? ==> r.value.designation == (if input.designation.Some? then input.designation.value else t.designation)
    ensures r.Some? && |input.uploaded| > 0 ==> r.value.avatar == EncodedColumn(input.uploaded)
    ensures r.Some? && |input.uploaded| == 0 ==> r.value.avatar == t.avatar
  {
    if !TestimonialValid(input, isEmail) then None
    else
      var merged := t.(
        name := input.name.value,
        message := input.message.value,
        email := if input.email.Some? then input.email.value else t.email,
        designation := if input.designation.Some? then input.designation.value else t.designation);
      Some(if |input.uploaded| > 0 then merged.(avatar := EncodedColumn(input.uploaded)) else merged)
  }

  /** One entry of TestimonialController::index. */
  datatype TestimonialView = TestimonialView(
    id: nat,
    name: string,
    email: Option<string>,
    designation: Option<string>,
    message: string,
    avatar: seq<Json>)

  /** TestimonialController::index for one testimonial: the text fields
      unchanged, the avatar normalised. */
  function ViewTestimonial(t: Testimonial, decode: string -> Option<Json>): (r: TestimonialView)
    ensures r.id == t.id && r.name == t.name && r.email == t.email
    ensures r.designation == t.designation && r.message == t.message
    ensures forall x :: multiset(r.avatar)[x] == if PhpFalsy(x) then 0 else multiset(DecodeList(t.avatar, decode))[x]
    ensures KeptInOrder(r.avatar, DecodeList(t.avatar, decode), PhpTruthy)
  {
    TestimonialView(t.id, t.name, t.email, t.designation, t.message, NormalizeAvatars(t.avatar, decode))
  }

  /** For the validation, a blank e-mail or designation is the same as one
      that was not sent at all. */
  lemma BlankOptionalIsAbsent(input: TestimonialInput, isEmail: string -> bool)
    ensures input.email.Some? && input.email.value.Some? && !Filled(input.email.value.value) ==>
              (TestimonialValid(input, isEmail) <==> TestimonialValid(input.(email := None), isEmail))
    ensures input.designation.Some? && input.designation.value.Some? && !Filled(input.designation.value.value) ==>
              (TestimonialValid(input, isEmail) <==> TestimonialValid(input.(designation := None), isEmail))
  {
  }

  /** The testimonial form's default submission, name and message typed and
      e-mail and designation left as the empty strings the form starts with,
      is stored whatever the e-mail rule is, and keeps those empty strings. */
  lemma BlankOptionalsAccepted(name: string, message: string, newId: nat, isEmail: string -> bool)
    requires Filled(name) && |name| <= MaxTitle && Filled(message)
    ensures var r := StoreTestimonial(TestimonialInput(Some(name), Some(message), Some(Some("")), Some(Some("")), []),
                                      newId, isEmail);
      r.Some? && r.value.email == Some("") && r.value.designation == Some("")
  {
  }

  /** Storing then updating with the same fields and no files gives back the
      stored testimonial. */
  lemma UpdateTestimonialWithStoredFieldsIsIdentity(input: TestimonialInput, newId: nat, isEmail: string -> bool)
    requires TestimonialValid(input, isEmail)
    ensures var t := StoreTestimonial(input, newId, isEmail).value;
      UpdateTestimonial(t, input.(uploaded := []), isEmail) == Some(t)
  {
  }

  /** Store then list: the avatar shown for a freshly stored testimonial is
      exactly the uploaded paths, in upload order, when none of them is falsy. */
  lemma StoredAvatarsRoundTrip(input: TestimonialInput, newId: nat, isEmail: string -> bool,
                               decode: string -> Option<Json>)
    requires TestimonialValid(input, isEmail)
    requires forall i :: 0 <= i < |input.uploaded| ==> !PhpFalsyString(input.uploaded[i])
    requires DecodesPaths(decode, input.uploaded)
    ensures ViewTestimonial(StoreTestimonial(input, newId, isEmail).value, decode).avatar
         == PathList(input.uploaded).items
  {
    var items := PathList(input.uploaded).items;
    EncodedColumnEntries(input.uploaded, decode);
    assert forall i :: 0 <= i < |items| ==> PhpTruthy(items[i]);
    FilterIdentity(items, PhpTruthy);
  }
}
