/** The list and form rules of the admin pages: the products page (category
    filter, delete reconciliation, product submit), the testimonials section
    (delete, create/update target) and the services page (admin check, submit,
    list reconciliation, modal reset). Responses are inputs; confirm dialogs
    and toasts are not modelled. */
module Pages {
  import opened Common
  import opened Images
  import Catalog
  import Strings

  // ---------------------------------------------------------------------------
  // Shared list rule

  /** Keeps every element whose id differs from the given one. */
  function OtherId<T>(idOf: T -> nat, id: nat): T -> bool {
    x => idOf(x) != id
  }

  /** list.filter(x => x.id !== id): every other element, in order and with
      its multiplicity. */
  function RemoveId<T(==,!new)>(xs: seq<T>, idOf: T -> nat, id: nat): (r: seq<T>)
    ensures forall x :: x in r <==> x in xs && idOf(x) != id
    ensures forall x :: idOf(x) != id ==> multiset(r)[x] == multiset(xs)[x]
    ensures forall i :: 0 <= i < |r| ==> idOf(r[i]) != id
    ensures KeptInOrder(r, xs, OtherId(idOf, id))
  {
    FilterKeptInOrder(xs, OtherId(idOf, id));
    var r := Filter(xs, OtherId(idOf, id));
    assert forall i :: 0 <= i < |r| ==> r[i] in r;
    r
  }

  /** Removing an id twice is removing it once. */
  lemma RemoveIdIdempotent<T(!new)>(xs: seq<T>, idOf: T -> nat, id: nat)
    ensures RemoveId(RemoveId(xs, idOf, id), idOf, id) == RemoveId(xs, idOf, id)
  {
    var once := RemoveId(xs, idOf, id);
    FilterIdentity(once, OtherId(idOf, id));
  }

  // ---------------------------------------------------------------------------
  // Products page

  function ProductId(p: Catalog.Product): nat {
    p.id
  }

  /** The category selector: "" shows every category. */
  datatype Selection = AllCategories | OneCategory(id: nat)

  function InCategory(id: nat): Catalog.Product -> bool {
    (p: Catalog.Product) => p.categoryId == id
  }

  /** The filter effect: every product for "", otherwise exactly the products
      of that category in their original order. */
  function FilterByCategory(products: seq<Catalog.Product>, sel: Selection): (r: seq<Catalog.Product>)
    ensures sel.AllCategories? ==> r == products
    ensures sel.OneCategory? ==> forall p :: p in r <==> p in products && p.categoryId == sel.id
    ensures sel.OneCategory? ==> forall p :: multiset(r)[p] == if p.categoryId == sel.id then multiset(products)[p] else 0
    ensures sel.OneCategory? ==> KeptInOrder(r, products, InCategory(sel.id))
  {
    match sel
    case AllCategories => products
    case OneCategory(id) =>
      FilterKeptInOrder(products, InCategory(id));
      Filter(products, InCategory(id))
  }

  datatype Category = Category(id: nat, name: string)

  function CategoryId(c: Category): nat {
    c.id
  }

  /** The part of the products page state these rules touch. */
  datatype ProductsPage = ProductsPage(
    products: seq<Catalog.Product>,
    filtered: seq<Catalog.Product>,
    categories: seq<Category>,
    selected: Selection)

  /** The filtered list shows what the filter effect computes. */
  predicate InSync(st: ProductsPage) {
    st.filtered == FilterByCategory(st.products, st.selected)
  }

  /** A product delete: on success the id leaves both lists; on failure the
      state stays (the page then refetches, which is not modelled). */
  function DeleteProduct(st: ProductsPage, id: nat, ok: bool): (r: ProductsPage)
    ensures !ok ==> r == st
    ensures ok ==> r.products == RemoveId(st.products, ProductId, id)
    ensures ok ==> r.filtered == RemoveId(st.filtered, ProductId, id)
    ensures r.categories == st.categories && r.selected == st.selected
  {
    if ok then st.(products := RemoveId(st.products, ProductId, id), filtered := RemoveId(st.filtered, ProductId, id))
    else st
  }

  /** Removing a product from both lists keeps the filtered list what the
      filter effect would compute from the new product list. */
  lemma DeleteProductKeepsSync(st: ProductsPage, id: nat, ok: bool)
    requires InSync(st)
    ensures InSync(DeleteProduct(st, id, ok))
  {
    if ok && st.selected.OneCategory? {
      FilterCommute(st.products, OtherId(ProductId, id), InCategory(st.selected.id));
    }
  }

  /** A category delete: on success the category leaves the list and a
      selection of it falls back to "". */
  function DeleteCategory(st: ProductsPage, id: nat, ok: bool): (r: ProductsPage)
    ensures !ok ==> r == st
    ensures ok ==> r.categories == RemoveId(st.categories, CategoryId, id)
    ensures ok && st.selected == OneCategory(id) ==> r.selected == AllCategories
    ensures ok && st.selected != OneCategory(id) ==> r.selected == st.selected
    ensures r.products == st.products && r.filtered == st.filtered
  {
    if !ok then st
    else st.(categories := RemoveId(st.categories, CategoryId, id),
             selected := if st.selected == OneCategory(id) then AllCategories else st.selected)
  }

  /** The filter effect, run whenever the products or the selection change:
      the filtered list becomes the selected category's products. */
  function RunFilterEffect(st: ProductsPage): (r: ProductsPage)
    ensures InSync(r)
    ensures r.products == st.products && r.categories == st.categories && r.selected == st.selected
    ensures InSync(st) ==> r == st
  {
    st.(filtered := FilterByCategory(st.products, st.selected))
  }

  /** A successful category delete drops the category from the list and
      never leaves it selected; when it was selected, the selection returns
      to "all" and the filter effect then shows every product. */
  lemma DeleteCategoryDropsSelection(st: ProductsPage, id: nat)
    ensures var r := DeleteCategory(st, id, true);
      && (forall i :: 0 <= i < |r.categories| ==> r.categories[i].id != id)
      && (forall c :: c in st.categories && c.id != id ==> c in r.categories)
      && (r.selected.OneCategory? ==> r.selected.id != id)
      && (st.selected == OneCategory(id) ==> r.selected == AllCategories)
      && (st.selected == OneCategory(id) ==> RunFilterEffect(r).filtered == st.products)
  {
    var r := DeleteCategory(st, id, true);
    forall i | 0 <= i < |r.categories|
      ensures r.categories[i].id != id
    {
      assert CategoryId(r.categories[i]) != id;
    }
  }

  /** The category_id field of the product form: the number 0 it starts
      with (or the product's id when editing), and the string value of the
      select once the user has changed it. */
  datatype CategoryValue = CategoryNumber(n: nat) | CategoryText(text: string)

  /** The product form. */
  datatype ProductForm = ProductForm(name: string, price: string, description: string, categoryId: CategoryValue)

  /** JavaScript truthiness of the category field: the number 0 and the empty
      string are falsy, every other value (the string "0" included) is truthy. */
  predicate CategoryTruthy(c: CategoryValue) {
    match c
    case CategoryNumber(n) => n != 0
    case CategoryText(t) => t != ""
  }

  /** String(category_id) as appended to the form data. */
  function CategoryField(c: CategoryValue): string {
    match c
    case CategoryNumber(n) => Strings.IntToDecimal(n)
    case CategoryText(t) => t
  }

  /** The required-field gate: name, price and category must be truthy. */
  predicate ProductFormComplete(f: ProductForm) {
    f.name != "" && f.price != "" && CategoryTruthy(f.categoryId)
  }

  /** POST /api/products, or POST /api/products/{id} with _method=PUT. */
  datatype ProductTarget = ProductCollection | ProductItem(id: nat)

  datatype ProductSubmission = ProductSubmission(target: ProductTarget, putOverride: bool, form: ProductForm,
                                                 categoryField: string, files: nat)

  /** handleProductSubmit: nothing is sent while name or price is empty or
      the category is the initial number 0 (or an empty string); an edit
      posts to the product with a PUT override, a new product to the
      collection; the form goes out as typed, with every chosen file. */
  function SubmitProduct(f: ProductForm, editing: Option<nat>, files: nat): (r: Option<ProductSubmission>)
    ensures r.Some? <==> f.name != "" && f.price != ""
                         && f.categoryId != CategoryNumber(0) && f.categoryId != CategoryText("")
    ensures r.Some? ==> r.value.form == f && r.value.files == files
    ensures r.Some? && f.categoryId.CategoryText? ==> r.value.categoryField == f.categoryId.text
    ensures r.Some? && f.categoryId.CategoryNumber? ==> r.value.categoryField != "0"
    ensures r.Some? ==> (r.value.putOverride <==> editing.Some?)
    ensures r.Some? && editing.Some? ==> r.value.target == ProductItem(editing.value)
    ensures r.Some? && editing.None? ==> r.value.target == ProductCollection
  {
    if !ProductFormComplete(f) then None
    else if editing.Some? then Some(ProductSubmission(ProductItem(editing.value), true, f, CategoryField(f.categoryId), files))
    else Some(ProductSubmission(ProductCollection, false, f, CategoryField(f.categoryId), files))
  }

  /** The gate stops the untouched numeric 0, but once the user has picked a
      category and then the placeholder option again the field holds the
      string "0", which is truthy: the form goes out with category_id "0". */
  lemma PlaceholderCategoryPassesGate(name: string, price: string, description: string,
                                      editing: Option<nat>, files: nat)
    requires name != "" && price != ""
    ensures SubmitProduct(ProductForm(name, price, description, CategoryNumber(0)), editing, files).None?
    ensures var r := SubmitProduct(ProductForm(name, price, description, CategoryText("0")), editing, files);
      r.Some? && r.value.categoryField == "0"
  {
  }

  // ---------------------------------------------------------------------------
  // Testimonials section

  function TestimonialId(t: Catalog.TestimonialView): nat {
    t.id
  }

  /** The testimonial delete: once the DELETE request has completed, whatever
      its status, the id leaves the list. */
  function DeleteTestimonial(list: seq<Catalog.TestimonialView>, id: nat, completed: bool): (r: seq<Catalog.TestimonialView>)
    ensures !completed ==> r == list
    ensures completed ==> r == RemoveId(list, TestimonialId, id)
  {
    if completed then RemoveId(list, TestimonialId, id) else list
  }

  /** POST /api/testimonials, or POST /api/testimonials/{id} with _method=PUT. */
  datatype TestimonialTarget = TestimonialCollection | TestimonialItem(id: nat)

  /** handleSubmit: a testimonial being edited with a truthy id is updated in
      place through a PUT override; anything else creates a new one. The HTTP
      method is POST either way. */
  function TestimonialSubmitTarget(editingId: Option<nat>): (r: (TestimonialTarget, bool))
    ensures ActiveId(editingId) ==> r == (TestimonialItem(editingId.value), true)
    ensures !ActiveId(editingId) ==> r == (TestimonialCollection, false)
  {
    if ActiveId(editingId) then (TestimonialItem(editingId.value), true) else (TestimonialCollection, false)
  }

  /** JavaScript truthiness of an optional id. */
  predicate ActiveId(id: Option<nat>) {
    id.Some? && id.value != 0
  }

  // ---------------------------------------------------------------------------
  // Services page

  /** The stored user as the services page reads it. */
  datatype ServiceUser = ServiceUser(role: Option<string>, isAdminFlag: Option<Json>)

  /** isAdmin: a stored user whose role is "admin" or whose is_admin is truthy. */
  function IsServicesAdmin(user: Option<ServiceUser>): (b: bool)
    ensures user.None? ==> !b
    ensures user.Some? && user.value.role == Some("admin") ==> b
    ensures user.Some? && user.value.isAdminFlag == Some(JBool(true)) ==> b
    ensures user.Some? && user.value.isAdminFlag == Some(JNum(0)) ==> (b <==> user.value.role == Some("admin"))
    ensures (user.Some? && user.value.role != Some("admin"))
              ==> (b <==> user.value.isAdminFlag.Some? && JsTruthy(user.value.isAdminFlag.value))
  {
    user.Some? && (user.value.role == Some("admin") || (user.value.isAdminFlag.Some? && JsTruthy(user.value.isAdminFlag.value)))
  }

  datatype Service = Service(id: nat, name: string, description: string, price: string)

  function ServiceId(s: Service): nat {
    s.id
  }

  datatype ServiceForm = ServiceForm(name: string, description: string, price: string)

  const EmptyServiceForm: ServiceForm := ServiceForm("", "", "")

  predicate ServiceFormComplete(f: ServiceForm) {
    f.name != "" && f.description != "" && f.price != ""
  }

  datatype HttpMethod = Post | Put

  /** /api/services or /api/services/{id}. */
  datatype ServiceTarget = ServiceCollection | ServiceItem(id: nat)

  datatype ServiceRequest = ServiceRequest(target: ServiceTarget, verb: HttpMethod, form: ServiceForm)

  /** handleSubmit: nothing is sent for an incomplete form; an edit is a PUT
      to the service, anything else a POST to the collection. */
  function SubmitService(f: ServiceForm, editing: Option<Service>): (r: Option<ServiceRequest>)
    ensures r.Some? <==> ServiceFormComplete(f)
    ensures r.Some? ==> r.value.form == f
    ensures r.Some? && editing.Some? ==> r.value.target == ServiceItem(editing.value.id) && r.value.verb == Put
    ensures r.Some? && editing.None? ==> r.value.target == ServiceCollection && r.value.verb == Post
  {
    if !ServiceFormComplete(f) then None
    else if editing.Some? then Some(ServiceRequest(ServiceItem(editing.value.id), Put, f))
    else Some(ServiceRequest(ServiceCollection, Post, f))
  }

  /** A services response: a list, some other JSON value, or a failure. */
  datatype ServicesResponse = ServiceList(items: seq<Service>) | NotAList | ServicesFailed

  /** fetchServices: a list replaces the services, any other body empties
      them, a failure keeps them. */
  function ReceiveServices(current: seq<Service>, resp: ServicesResponse): (r: seq<Service>)
    ensures resp.ServiceList? ==> r == resp.items
    ensures resp.NotAList? ==> r == []
    ensures resp.ServicesFailed? ==> r == current
  {
    match resp
    case ServiceList(items) => items
    case NotAList => []
    case ServicesFailed => current
  }

  /** The service delete: only a successful response removes the id. */
  function DeleteService(list: seq<Service>, id: nat, ok: bool): (r: seq<Service>)
    ensures !ok ==> r == list
    ensures ok ==> r == RemoveId(list, ServiceId, id)
  {
    if ok then RemoveId(list, ServiceId, id) else list
  }

  /** A second delete of the same id, whatever its outcome, changes nothing
      after a successful one. */
  lemma DeleteServiceIdempotent(list: seq<Service>, id: nat, ok: bool)
    ensures DeleteService(DeleteService(list, id, true), id, ok) == DeleteService(list, id, true)
  {
    RemoveIdIdempotent(list, ServiceId, id);
  }

  /** A failed refetch after a successful delete keeps the deletion; a list
      reply replaces it by what the server sent. */
  lemma RefetchAfterDelete(list: seq<Service>, id: nat, resp: ServicesResponse)
    ensures resp.ServicesFailed? ==> forall i :: 0 <= i < |ReceiveServices(DeleteService(list, id, true), resp)| ==>
              ReceiveServices(DeleteService(list, id, true), resp)[i].id != id
    ensures resp.ServicesFailed? ==> ReceiveServices(DeleteService(list, id, true), resp) == RemoveId(list, ServiceId, id)
    ensures resp.ServiceList? ==> ReceiveServices(DeleteService(list, id, true), resp) == resp.items
  {
    var kept := RemoveId(list, ServiceId, id);
    assert forall i :: 0 <= i < |kept| ==> ServiceId(kept[i]) != id;
  }

  /** The service modal. */
  datatype ServiceModal = ServiceModal(open: bool, editing: Option<Service>, form: ServiceForm)

  /** openModal: edit the given service with its fields in the form, or start
      a new one with an empty form. */
  function OpenModal(m: ServiceModal, service: Option<Service>): (r: ServiceModal)
    ensures r.open && r.editing == service
    ensures service.Some? ==> r.form == ServiceForm(service.value.name, service.value.description, service.value.price)
    ensures service.None? ==> r.form == EmptyServiceForm
  {
    ServiceModal(true, service,
      if service.Some? then ServiceForm(service.value.name, service.value.description, service.value.price)
      else EmptyServiceForm)
  }

  /** closeModal: closed, nothing being edited, an empty form. */
  function CloseModal(m: ServiceModal): (r: ServiceModal)
    ensures !r.open && r.editing.None? && r.form == EmptyServiceForm
  {
    ServiceModal(false, None, EmptyServiceForm)
  }

  /** Closing forgets whatever was opened; the closed modal submits nothing. */
  lemma CloseForgetsOpen(m: ServiceModal, service: Option<Service>)
    ensures CloseModal(OpenModal(m, service)) == CloseModal(m)
    ensures SubmitService(CloseModal(m).form, CloseModal(m).editing).None?
  {
  }

  /** Opening a service for edit and submitting it unchanged updates that
      service in place. */
  lemma EditUnchangedTargetsService(m: ServiceModal, s: Service)
    requires s.name != "" && s.description != "" && s.price != ""
    ensures var o := OpenModal(m, Some(s));
      SubmitService(o.form, o.editing) == Some(ServiceRequest(ServiceItem(s.id), Put, o.form))
  {
  }
}
