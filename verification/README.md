# Gifted Hands web — a Dafny model of the chat, catalogue and image-URL core

Gifted Hands is a small shop site. A Laravel API (the backend) sits behind a Next.js frontend.
This project models the parts of the site that hold real logic:

- **Chat between customers and the shop's admin** (module `ChatStore`, after
  `ChatController.php`). The model covers:
  - the `chats` table as a sequence of rows in insertion order;
  - sending, editing, deleting and reading messages;
  - the admin's conversation list;
  - HTTP statuses as `Ok(status, value)` / `Err(status)` outcomes.
  
  The `auth:sanctum` route group runs before each controller. That is why the model answers 401
  for a missing caller before it checks the request body.
- **The chat client** (module `ChatClient`, after the `useChat` hook and the chat page).
  The model covers:
  - picking the identity from local storage;
  - which request a fetch, a send or a delete issues;
  - how the message list, page counter and `hasMore` flag evolve;
  - loading older pages and polling;
  - the per-message action menu.
- **Product and testimonial records** (module `Catalog`, after `ProductController.php` and
  `TestimonialController.php`). The model covers:
  - searching and the four newest arrivals;
  - store and update, including Laravel validation;
  - the round trip from stored image paths to the URLs the API returns.
- **Image paths and URLs** (module `Images`). This module holds:
  - the backend's `getImageUrls`;
  - the `Product` model's `image_urls` accessor;
  - the testimonial avatar list;
  - the frontend's four URL-building rules (product page, carousel, testimonials and `normalizeImageUrl`);
  - the frontend's JSON unwrapping.
- **Admin page state** (module `Pages`). This covers:
  - the products page (category filter, delete, submit);
  - the testimonials section;
  - the services page (admin check, modal, submit, delete).

Shared pieces:

- `Common`: `Option`, a JSON value type, an order-preserving `Filter` and association-list lookup.
- `Strings`: prefix tests, substring search, JavaScript blankness, PHP `trim` with a character list,
  and decimal rendering.
- `Sorting`: a stable insertion sort by an integer key. It stands in for SQL `ORDER BY`.

External behaviour becomes a parameter of the model, so every contract holds for every choice of it:

- `json_decode` and `JSON.parse`, as `string -> Option<Json>`;
- the e-mail rule;
- `JSON.parse` of the stored user;
- the clock, as `now`;
- the id the database assigns, as `newId` or the store's `nextId`;
- the paths the storage layer generates for uploads.

## Model

| member | source | states |
|---|---|---|
| ChatStore.FirstAdmin | backend/app/Http/Controllers/ChatController.php:27-30 | No admin exists exactly when the result is None. Otherwise the result is an admin user with no admin before it in table order, which is what `first()` returns. |
| ChatStore.SendMessage | backend/app/Http/Controllers/ChatController.php:14-46 | The error cases: 401 without a caller; 422 for a missing or blank message or an unknown `user_id`; 404 when the site has no admin; 422 when an admin names no user. A send succeeds exactly when none of these applies and the resolved user id is truthy. A success appends one row with the next id and the request's text. For a customer the row links the caller to the first admin. For an admin it links the named user to the caller, and `is_admin` is set. Failures leave the table unchanged. |
| ChatStore.UpdateMessage | backend/app/Http/Controllers/ChatController.php:64-85 | Checks in order: 401, then 422 for a blank text, then 404 for an unknown id. The edit succeeds exactly when the caller is an admin or owns the row's `user_id`; otherwise the answer is 403. Only the text of that one row changes. `updated_at` moves to now only when the text differs; an identical text leaves the row as it was, as Eloquent saves only dirty attributes. |
| ChatStore.DeleteMessage | backend/app/Http/Controllers/ChatController.php:156-177 | The error cases are 401 and 404, and 403 for a caller who is neither an admin nor the row's user. After a success the remaining rows are exactly the old rows whose id differs, in their old order. A failure leaves the table unchanged. |
| ChatStore.GetMessages | backend/app/Http/Controllers/ChatController.php:88-109 | The error cases are 401 and 404 (no admin). On success the result holds each row of the pair (user, first admin), in either direction, exactly as many times as the table does, and no other rows. It is ordered oldest first. |
| ChatStore.Latest | backend/app/Http/Controllers/ChatController.php:131-138 | None exactly when no row belongs to the pair. Otherwise the result is a row of the pair with no row of the pair newer than it. |
| ChatStore.ConversationIds | backend/app/Http/Controllers/ChatController.php:121-126 | The ids are pairwise distinct. An id is listed exactly when it is not the admin's own id and some row addressed to the admin carries it as `user_id`. |
| ChatStore.GetConversations | backend/app/Http/Controllers/ChatController.php:112-117 | 401 without a caller, as the `auth:sanctum` group answers before the controller runs. 403 for a caller who is not an admin. Otherwise 200 with the admin's conversation list. |
| ChatStore.AdminConversations | backend/app/Http/Controllers/ChatController.php:119-153 | Each listed user appears once and is never the admin. Each entry is the user's name with the pair's latest row. Every listed user has a row addressed to the admin. Every existing user who has such a row is listed. |
| ChatStore.SendPreservesValid | backend/database/migrations/2025_09_02_075553_create_chats_table.php:10-17 | Sending keeps row ids unique and below the next id to be assigned. |
| ChatStore.UpdatePreservesValid | backend/database/migrations/2025_09_02_075553_create_chats_table.php:10-17 | Editing keeps row ids unique and below the next id. |
| ChatStore.DeletePreservesValid | backend/database/migrations/2025_09_02_075553_create_chats_table.php:10-17 | Deleting keeps row ids unique and below the next id. |
| ChatStore.DeleteTwiceIsNotFound | backend/app/Http/Controllers/ChatController.php:163-167 | Repeating a successful delete answers 404 and changes nothing. |
| ChatStore.GetMessagesSelfScoped | backend/app/Http/Controllers/ChatController.php:99 | A customer's reply does not depend on the `user_id` in the URL. It only ever contains rows involving that customer. |
| ChatStore.SentMessageVisibleToBoth | backend/app/Http/Controllers/ChatController.php:32-44 | A message sent by a customer, or by the first admin, is visible to two readers: the customer's own read, and the first admin's read of that customer. |
| ChatStore.HelloHiSends | backend/app/Http/Controllers/ChatController.php:39-46 | A scenario. The customer sends "Hello" at time 10 and the admin answers "Hi" at time 20. Each step produces exactly the expected 201 reply and table. |
| ChatStore.HelloHiUserView | backend/app/Http/Controllers/ChatController.php:102-106 | In that scenario the customer reads both messages, oldest first, even though the URL carries another id (7). |
| ChatStore.HelloHiAdminView | backend/app/Http/Controllers/ChatController.php:142-153 | In that scenario the admin's conversation list is a single entry. It holds the customer, the text "Hi", time 20 and the admin flag. |
| ChatStore.SecondAdminReplyHidden | backend/app/Http/Controllers/ChatController.php:37-106 | A reply by an admin who is not the first admin is stored. The customer nevertheless reads an empty list, because reads always pair the customer with the first admin. |
| Sorting.SortBy | backend/app/Http/Controllers/ChatController.php:106 | The result is ordered by the key and is a permutation of the input. |
| Common.FilterKeptInOrder | frontend/src/app/chat/useChat.tsx:193 | The filter keeps exactly the accepted elements, in their original order, as `Array.prototype.filter` and `array_filter` do. |
| Strings.PhpTrim | backend/app/Http/Controllers/ProductController.php:76 | The result is a contiguous slice of the input. Neither of its ends is in the character list, and everything cut off is in the list. |
| Strings.PhpTrimIdempotent | backend/app/Http/Controllers/ProductController.php:76 | Trimming an already-trimmed string changes nothing. |
| Strings.Contains | backend/app/Http/Controllers/ProductController.php:20-21 | True exactly when the pattern occurs at some position of the text. |
| Images.DecodeList | backend/app/Http/Controllers/ProductController.php:66-73 | An array field gives its values, and so does a string that decodes to an array (a JSON object counts as an array). Any other string gives a one-element list of itself. Every other value gives the empty list. |
| Images.CleanImage | backend/app/Http/Controllers/ProductController.php:75-83 | Quotes, brackets, backslashes and slashes are trimmed from both ends. A result that starts with `products/` is prefixed with the storage URL; any other result is returned as is. |
| Images.CleanedImages | backend/app/Http/Controllers/ProductController.php:68-83 | Fails, like PHP's TypeError from `trim`, exactly when an entry is itself an array. Otherwise it gives one cleaned string per entry, in order. |
| Images.KeepOrPlaceholder | backend/app/Http/Controllers/ProductController.php:85-87 | The result is never empty and holds no falsy string. An all-falsy input gives exactly the placeholder URL. Otherwise the result lists, in their original order, exactly the truthy entries, each as often as it occurs. |
| Images.GetImageUrls | backend/app/Http/Controllers/ProductController.php:64-88 | The URL list is the cleaned entries with falsy ones dropped, in order, or the placeholder. It fails exactly when cleaning fails. |
| Images.AccessorImageUrls | backend/app/Models/Product.php:25-36 | An empty `images` value gives the placeholder. Otherwise there is one URL per entry of the `(array)` cast: `asset()` of `storage/` and the entry with quotes and brackets trimmed, where `asset()` trims slashes from both ends of its argument. |
| Images.DecodedAccessorImageUrls | backend/app/Models/Product.php:25-36 | The corrected accessor: run on the decoded list. An empty list gives the placeholder; otherwise one storage URL per entry, in order, failing exactly when an entry is an array. |
| Images.AssetPlain | backend/app/Models/Product.php:34 | For a path with no slash at either end, `asset()` is the application URL, one slash and the path. |
| Images.NormalizeAvatars | backend/app/Http/Controllers/TestimonialController.php:19-26 | The avatar list is the decoded list with every falsy entry removed and every other entry kept, in its original order. |
| Images.GetImageUrlsAsWritten | backend/app/Http/Controllers/ProductController.php:85-87 | The controller's result as PHP holds it, a key-to-URL array. Its values are exactly the URL list. When some entry survives, each key is the position of its URL among the cleaned entries, keys increase, and every truthy position is a key. When none survives, the placeholder sits alone under key 0. |
| Images.KeyedFilter | backend/app/Http/Controllers/ProductController.php:85 | `array_filter` on a list: each pair's key is the position of its value in the input, the value is truthy, keys increase, and every truthy position is a key. |
| Images.KeyedFilterValues | backend/app/Http/Controllers/ProductController.php:85 | The values `array_filter` keeps are, in order, exactly those the order-preserving filter keeps. |
| Images.KeyedOrPlaceholder | backend/app/Http/Controllers/ProductController.php:85-87 | Its values are those of the URL list. All-falsy input gives the placeholder under key 0. Otherwise the truthy entries sit under their own positions. |
| Images.AsWrittenGivesJsonObject | backend/app/Http/Controllers/ProductController.php:85-87 | For a stored column holding a blank entry and then a product path, as `json_encode` writes it, the result is the single pair (1, storage URL). It is not a list, so `json_encode` writes a JSON object. |
| Images.ReindexedImageUrls | backend/app/Http/Controllers/ProductController.php:85-87 | The corrected helper. Its keys are 0..n-1, so it always encodes as a JSON list, and it holds the same URLs in the same order. |
| Images.ProductPageImageUrl | frontend/src/app/products/page.tsx:50-65 | Empty gives the placeholder. An absolute http(s) URL is kept. A `products/` path gets the storage origin. Anything else is kept. |
| Images.ProductPageImageUrlIdempotent | frontend/src/app/products/page.tsx:50-65 | Applying the product-page rule twice equals applying it once. |
| Images.CarouselImageUrl | frontend/src/components/FeaturedCarousel.tsx:16-27 | Behaves like the product-page rule, and in addition maps `/products/…` to the storage origin without the leading slash. |
| Images.CarouselImageUrlIdempotent | frontend/src/components/FeaturedCarousel.tsx:16-27 | Applying the carousel rule twice equals applying it once. |
| Images.CarouselAgreesWithProductPage | frontend/src/components/FeaturedCarousel.tsx:16-27 | The two rules differ only on paths that start with `/products/`; the product page leaves those untouched. |
| Images.FrontendKeepsBackendUrls | frontend/src/components/Testimonials.tsx:81-82 | Every frontend rule leaves a URL the backend built with `asset()` unchanged. |
| Images.TestimonialImageUrl | frontend/src/components/Testimonials.tsx:81-82 | Empty gives the placeholder. Anything starting with `http` is kept. Everything else gets the storage prefix. |
| Images.ParseImages | frontend/src/app/utils/parseImage.ts:1-9 | An array is returned as is, and so is the array of a string that parses to one. Any other string becomes a one-element list. |
| Images.ParseImagesAgreesWithSafeJsonParse | frontend/src/app/utils/parseImage.ts:1-9 | On text that parses to a list of non-blank strings, parseImages and safeJSONParse give the same strings in the same order. |
| Images.NormalizeImageUrl | frontend/src/app/utils/parseImage.ts:11-12 | `http…` is kept. Anything else has its leading slashes stripped and the API origin prepended, so the result always starts with `http`. |
| Images.NormalizeImageUrlIdempotent | frontend/src/app/utils/parseImage.ts:11-12 | Normalising twice equals normalising once. |
| Images.SafeJsonParse | frontend/src/app/products/page.tsx:112-122 | The result never holds a blank string. A parsed array gives its non-blank string items, in order and with repeats, and nothing else. A parsed string gives itself when non-blank. Other JSON gives the empty list, and text that does not parse gives itself when non-blank. |
| Images.NonBlankTexts | frontend/src/app/products/page.tsx:116-117 | Exactly the non-blank strings of a list, in order and with repeats. |
| Images.SafeJsonParseOfTexts | frontend/src/app/products/page.tsx:112-122 | Text that parses to a JSON array of non-blank strings gives exactly those strings, in order. |
| Images.CarouselImages | frontend/src/components/FeaturedCarousel.tsx:43-48 | An array maps entry by entry to carousel URLs and fails exactly when some entry is truthy but not a string. A falsy non-array gives the placeholder. A non-empty string gives its single URL. |
| Images.CarouselEntryUrl | frontend/src/components/FeaturedCarousel.tsx:45-47 | A falsy entry gives the placeholder, and a truthy string gives its carousel URL. Any other truthy entry fails. |
| Images.CarouselEntryUrls | frontend/src/components/FeaturedCarousel.tsx:45-46 | Succeeds exactly when every entry does. It then gives one URL per entry, in order. |
| Images.CarouselKeepsBackendUrls | frontend/src/components/FeaturedCarousel.tsx:43-48 | A list of URLs that the backend built with `asset()` comes out of the carousel unchanged. |
| Images.UnwrapProducts | frontend/src/components/FeaturedCarousel.tsx:39-41 | A bare array is used directly, and null fails. Scalars and objects with neither `products` nor `data` give an empty list. A non-nullish `products` wins and must be an array. Otherwise a non-nullish `data` is used and must be an array. |
| Images.UnwrapProductsShapes | frontend/src/components/FeaturedCarousel.tsx:39-41 | A product list comes back from each response shape: the bare array, `{products: [...]}`, `{data: [...]}`, and `{products: null, data: [...]}`. |
| Catalog.SearchProducts | backend/app/Http/Controllers/ProductController.php:17-25 | Without `search` every product is returned. With it, the result is exactly the products whose name or description contains the term, each with its multiplicity. |
| Catalog.EmptySearchKeepsAll | backend/app/Http/Controllers/ProductController.php:17-23 | An empty search term keeps every product. |
| Catalog.NewArrivals | backend/app/Http/Controllers/ProductController.php:43-48 | Returns min(4, number of products) products, newest first, drawn from the table. |
| Catalog.NewArrivalsAreNewest | backend/app/Http/Controllers/ProductController.php:45-47 | No product left out of the new arrivals is newer than one that is in them. |
| Catalog.StoreProduct | backend/app/Http/Controllers/ProductController.php:93-116 | Creates a product exactly when name and price are filled and a category is given. The product carries the new id, the input fields (a missing description becomes null). Its images column is the `json_encode` text of the uploaded paths, which is what the `array` cast reads back. |
| Catalog.ProductInputValid | backend/app/Http/Controllers/ProductController.php:95-101 | A blank name or a blank price fails `required`. |
| Catalog.StoreThenListImages | backend/app/Http/Controllers/ProductController.php:64-116 | For any decoder that inverts `json_encode` on the uploads, a stored product's images come back from `getImageUrls` as one storage URL per upload, in order, or as the placeholder when nothing was uploaded. |
| Catalog.UpdateProduct | backend/app/Http/Controllers/ProductController.php:146-162 | Each field sent replaces the old value and each field left out keeps it. New uploads replace the images column with their `json_encode` text; no uploads keep it. Id and creation time never change. |
| Catalog.EmptyUpdateIsIdentity | backend/app/Http/Controllers/ProductController.php:148-162 | An update that sends nothing leaves the product unchanged. |
| Catalog.UpdateWithStoredFieldsIsIdentity | backend/app/Http/Controllers/ProductController.php:148-162 | Re-sending a product's own fields and uploads leaves the product unchanged. |
| Catalog.StoredImagesRoundTrip | backend/app/Http/Controllers/ProductController.php:64-115 | For any decoder that inverts `json_encode` on the paths, the encoded column of paths the storage layer writes (`products/<name>`) maps to `storage/<path>` URLs one for one. An empty list maps to the placeholder. |
| Catalog.AccessorAgreesWithController | backend/app/Models/Product.php:25-36 | The corrected accessor, fed the decoded list, agrees with the controller's `getImageUrls` on every images column the store handler writes: one storage URL per upload, in order, or the placeholder. |
| Catalog.AccessorOnPathList | backend/app/Models/Product.php:25-36 | Given the list of stored paths itself, the accessor gives one storage URL per path, in order, or the placeholder for the empty list. |
| Catalog.AccessorOnEncodedColumn | backend/app/Models/Product.php:25-36 | On the column the store handler actually writes, the accessor sees one string, the JSON text. No upload gives the bare storage directory `…/storage`. Uploads give a single URL holding the escaped paths joined by `","`. |
| Catalog.AccessorMissesEncodedColumn | backend/app/Models/Product.php:25-36 | On every stored column, the accessor as written and the controller's `getImageUrls` give different answers. |
| Catalog.StoreTestimonial | backend/app/Http/Controllers/TestimonialController.php:38-61 | Created exactly when the name is filled and at most 255 characters, the message is filled, a given non-blank e-mail is valid and a given non-blank designation has at most 255 characters. A null or blank e-mail or designation always passes, as Laravel skips those rules on blank values. Missing optional fields become null, and the avatar column is the `json_encode` text of the uploads. |
| Catalog.TestimonialValid | backend/app/Http/Controllers/TestimonialController.php:40-46 | A name over 255 characters fails, and so does a blank message. |
| Catalog.BlankOptionalIsAbsent | backend/app/Http/Controllers/TestimonialController.php:40-46 | For validation, a blank e-mail or designation counts the same as one that was not sent. |
| Catalog.BlankOptionalsAccepted | frontend/src/components/admin/TestimonalModal.tsx:26 | The admin form's default submission is stored whatever the e-mail rule is, and the empty strings are kept. That submission has a typed name and message, and the e-mail and designation left as empty strings. |
| Catalog.UpdateTestimonial | backend/app/Http/Controllers/TestimonialController.php:66-86 | Same validation as store, so a blank e-mail or designation passes. Name and message are replaced. E-mail and designation are replaced only when sent. The avatar column is replaced by the `json_encode` text of the uploads only when files are uploaded. |
| Catalog.UpdateTestimonialWithStoredFieldsIsIdentity | backend/app/Http/Controllers/TestimonialController.php:66-86 | Re-sending a stored testimonial's own fields without files gives it back unchanged. This includes a testimonial stored with a blank e-mail or designation. |
| Catalog.ViewTestimonial | backend/app/Http/Controllers/TestimonialController.php:18-34 | Every field passes through unchanged. The avatar list is the decoded list without falsy entries, the rest in their original order. |
| Catalog.StoredAvatarsRoundTrip | backend/app/Http/Controllers/TestimonialController.php:19-61 | For any decoder that inverts `json_encode` on the uploads, the listing returns exactly the uploaded avatar paths of a stored testimonial, in upload order. |
| ChatClient.LoadIdentity | frontend/src/app/chat/useChat.tsx:22-41 | When both admin slots are present they are the ones read: if they parse they set user and token, and if not only the loading flag clears. Only when they are not both present are the user slots read, with the same two outcomes. With neither pair present only the loading flag clears. |
| ChatClient.AdminSlotsWin | frontend/src/app/chat/useChat.tsx:29-35 | Whenever the admin slots are present, the user slots have no effect on the identity. |
| ChatClient.FetchRequestFor | frontend/src/app/chat/useChat.tsx:46-51 | A fetch is issued exactly when there is a user with a token, and, for an admin, a truthy active chat. It targets the active chat for an admin and the user's own id otherwise. |
| ChatClient.FetchMessages | frontend/src/app/chat/useChat.tsx:44-82 | Loading older messages prepends the page; polling replaces the list. `hasMore` means the reply held a full page of 20. A failed poll clears the list, and a failed older-page load keeps it. No other field changes. |
| ChatClient.Unwrap | frontend/src/app/chat/useChat.tsx:63-67 | A bare array is the list. An object gives its `messages` array, or the empty list when that is missing. A failed fetch gives nothing. |
| ChatClient.BeginLoadMore | frontend/src/app/chat/useChat.tsx:85-87 | A load starts only when more pages exist and none is loading. It then sets `loadingMore` and changes nothing else. |
| ChatClient.FinishLoadMore | frontend/src/app/chat/useChat.tsx:88-93 | The page advances by one and `loadingMore` ends. Everything else is what fetching the next page in load-more mode gives. |
| ChatClient.LoadMoreKeepsShownMessages | frontend/src/app/chat/useChat.tsx:85-95 | Loading more advances the page by one and ends not loading. The messages shown before remain as a suffix of the list. |
| ChatClient.BeginLoadMoreIdempotent | frontend/src/app/chat/useChat.tsx:85-88 | A second trigger while loading does nothing, so no page is fetched twice. |
| ChatClient.Poll | frontend/src/app/chat/useChat.tsx:98-105 | With a user and token, a poll resets to page 1 and refetches it. Without them nothing changes. |
| ChatClient.PollIdempotent | frontend/src/app/chat/useChat.tsx:98-105 | Two polls that get the same reply leave the same state as one. |
| ChatClient.FetchConversations | frontend/src/app/chat/useChat.tsx:108-135 | For an admin with a token the list is replaced, and a failure empties it. The first conversation becomes active only when none is active. No other field changes. |
| ChatClient.ConvListOf | frontend/src/app/chat/useChat.tsx:121-125 | The `conversations` array of an object reply, or a bare array reply, or the empty list when neither is present. A failed fetch gives nothing. |
| ChatClient.ConversationsEnableFetch | frontend/src/app/chat/useChat.tsx:121-130 | After conversations load with none active, a message fetch for the first conversation's user on page 1 becomes possible. |
| ChatClient.SendRequestFor | frontend/src/app/chat/useChat.tsx:146-172 | Nothing is sent for blank input, without a token, or for an admin with no active chat. An edit is a PUT to the message. A new message is a POST, and it carries `user_id` exactly when an admin sends it, as the active chat. |
| ChatClient.FinishSend | frontend/src/app/chat/useChat.tsx:170-179 | Success clears the input and edit state and refetches page 1. Failure only clears the loading flag. |
| ChatClient.BeginSend | frontend/src/app/chat/useChat.tsx:146-149 | When the send guard passes, loading is set and nothing else changes. Otherwise the state is left as it is. |
| ChatClient.FailedSendRestores | frontend/src/app/chat/useChat.tsx:146-179 | A failed send ends in exactly the state it started from. |
| ChatClient.StartEditing | frontend/src/app/chat/useChat.tsx:141-144 | The message becomes the one being edited, and the input holds its text. Nothing else changes. |
| ChatClient.SendDisabled | frontend/src/app/chat/page.tsx:221 | While the button is disabled, starting a send changes nothing. |
| ChatClient.DeleteLocal | frontend/src/app/chat/useChat.tsx:181-198 | A confirmed delete with a token removes exactly the messages with that id, keeping the others in order. Otherwise nothing changes. |
| ChatClient.DeleteLocalIdempotent | frontend/src/app/chat/useChat.tsx:193 | Removing the same id twice equals removing it once. |
| ChatClient.ActionsOffered | frontend/src/app/chat/page.tsx:74-76 | For an admin viewer, actions are offered on every admin-flagged message and on any message carrying the viewer's id. For a customer, exactly on the non-admin messages carrying the viewer's id. An admin-flagged message offers them exactly to admins. |
| ChatClient.ToggleAction | frontend/src/app/chat/page.tsx:156-160 | Clicking the open menu closes it. Clicking any other message opens that message's menu. |
| ChatClient.ToggleActionTwice | frontend/src/app/chat/page.tsx:156-160 | Toggling the same message's menu twice returns to it open if it was open, and to closed otherwise. |
| ChatClient.ScrollTriggersLoadMore | frontend/src/app/chat/page.tsx:65-67 | A scroll triggers a load exactly when it is under 150 pixels from the top and a load can start, and a triggered load then runs. |
| ChatClient.BlankInputSendsNothing | frontend/src/app/chat/useChat.tsx:147 | Blank input disables the send button, produces no request and leaves the state unchanged. |
| Pages.RemoveId | frontend/src/app/products/page.tsx:366-367 | Removes exactly the items with that id and keeps every other item, in order and with its multiplicity. |
| Pages.RemoveIdIdempotent | frontend/src/app/products/page.tsx:366-367 | Removing an id twice equals removing it once. |
| Pages.DeleteProduct | frontend/src/app/products/page.tsx:366-367 | A successful delete removes the id from both the products and the filtered list. A failure changes nothing. |
| Pages.DeleteCategory | frontend/src/app/products/page.tsx:397-402 | A successful delete removes the id from the categories. A selection of that id resets to "all", and any other selection is kept. A failure changes nothing. |
| Pages.FilterByCategory | frontend/src/app/products/page.tsx:104-110 | "All" keeps every product. A category keeps exactly its products, in order and with multiplicity. |
| Pages.RunFilterEffect | frontend/src/app/products/page.tsx:104-110 | The effect leaves the page in sync: the filtered list is the products of the selected category. An in-sync page is left unchanged. |
| Pages.DeleteProductKeepsSync | frontend/src/app/products/page.tsx:366-367 | Deleting a product keeps the shown list equal to the filter of the full list. |
| Pages.DeleteCategoryDropsSelection | frontend/src/app/products/page.tsx:397-402 | After a successful delete no category with that id remains, every other category is kept, and the selection never names the deleted id. A selected deleted category resets the filter to "all", and the filter effect then shows every product. |
| Pages.SubmitProduct | frontend/src/app/products/page.tsx:252-281 | Submits exactly when name and price are non-empty and the category is JavaScript-truthy: neither the initial number 0 nor an empty string, so the select's string "0" passes. A category string is sent as it is. Editing posts to the product with the PUT override; creating posts to the collection. |
| Pages.PlaceholderCategoryPassesGate | frontend/src/app/products/page.tsx:554-565 | With name and price filled, the untouched numeric 0 is stopped, but the select's option value "0" is a truthy string and is submitted as category "0". |
| Pages.DeleteTestimonial | frontend/src/components/Testimonials.tsx:42-43 | A completed delete removes exactly that testimonial. Otherwise the list is unchanged. |
| Pages.TestimonialSubmitTarget | frontend/src/components/Testimonials.tsx:63-69 | A truthy editing id (not 0) sends a PUT override to that testimonial's URL. Otherwise the POST goes to the collection. |
| Pages.IsServicesAdmin | frontend/src/app/services/page.tsx:61 | No user is never an admin. Role "admin" is. Otherwise the answer is exactly whether the `isAdmin` flag is present and JavaScript-truthy, so `true` counts and `0` does not. |
| Pages.SubmitService | frontend/src/app/services/page.tsx:86-94 | Submits exactly when all three fields are filled. Editing gives a PUT to the service; creating gives a POST to the collection. |
| Pages.ReceiveServices | frontend/src/app/services/page.tsx:52 | A list reply replaces the services, a non-list reply empties them, and a failure keeps them. |
| Pages.RefetchAfterDelete | frontend/src/app/services/page.tsx:52 | A failed refetch after a successful delete keeps the deletion, so the deleted id stays absent. A list reply replaces the list. |
| Pages.DeleteService | frontend/src/app/services/page.tsx:154-155 | A successful delete removes exactly that service. |
| Pages.DeleteServiceIdempotent | frontend/src/app/services/page.tsx:154-155 | After a successful delete, a second delete of the same id changes nothing, whether it succeeds or not. |
| Pages.CloseForgetsOpen | frontend/src/app/services/page.tsx:63-77 | Closing after opening is the same as closing. A closed modal has nothing to submit. |
| Pages.OpenModal | frontend/src/app/services/page.tsx:63-71 | The modal opens on the given service, with the form holding its fields, or on an empty form when no service is given. |
| Pages.CloseModal | frontend/src/app/services/page.tsx:73-77 | The modal closes and forgets the edited service and the form. |
| Pages.EditUnchangedTargetsService | frontend/src/app/services/page.tsx:63-94 | Opening a complete service for editing and submitting unchanged sends a PUT for that service with its own fields. |

## Left out

- Network, timers, React effects, local storage writes and races between overlapping requests are out of scope. Each client step is modelled as one reply applied to one state.
- HTTP 500 branches (database or storage errors caught by `catch (\Exception)`) are out of scope. Persistence is assumed to succeed.
- `asset()` is the constant origin `http://127.0.0.1:8000`. The app's configured URL is not modelled.
- Catalog.SearchProducts: SQL `LIKE` is modelled as case-sensitive substring search. The database collation's case folding and `%`/`_` wildcards inside the term are left out.
- The `images` and `avatar` columns hold the `json_encode` text of the stored paths, as a JSON string. The `array` cast encodes that text once more on save and decodes it once on read, so the attribute reads back as the text itself. `json_decode` is a parameter; the round trips assume it inverts `json_encode` on the paths in question.
- Images.JsonEscape: escapes only `"`, `\` and `/`. The `\uXXXX` escapes `json_encode` writes for control characters and non-ASCII text are not modelled; stored upload paths contain neither.
- Images.Asset: Laravel's `asset()` returns a path that is already a valid URL unchanged. That shortcut is not modelled; every argument in the model is a relative path.
- Images.GetImageUrlsAsWritten: for a field that decodes to a JSON object, `array_map` keeps the object's string keys. The model numbers the entries by position instead, so the keys of that case are not modelled. The store handlers only ever write lists.
- The `Testimonial` Eloquent model is not part of this model. Its cast, if any, is not visible. Either way the `avatar` attribute reads back as the stored text, which is how the model holds it.
- ChatClient.FetchRequestFor: the client sends `?page=N`, but `getMessages` ignores the page and always returns the whole history. A load-more therefore prepends the whole history again. The model keeps the two sides separate and does not compose them.
- The `email` rule is a parameter. The `image|mimes|max` file rules and the storage layer's file naming are left out: uploads arrive as their stored paths.
- Laravel's `ConvertEmptyStringsToNull` middleware is not modelled. An empty optional string reaches the controller as an empty string, not as null.
- ChatStore.SendMessage: Laravel's `TrimStrings` middleware, which trims surrounding whitespace from request strings, is not modelled, so the stored `message` is the text as sent. The blank check is unaffected, because `Filled` already ignores surrounding whitespace.
- ChatStore.UpdateMessage: the text is stored and compared with the old one untrimmed (`TrimStrings` is not modelled).
- Catalog.StoreProduct: name, price and description are stored untrimmed (`TrimStrings` is not modelled). Validation is unaffected.
- Catalog.UpdateProduct: the sent fields replace the old ones untrimmed (`TrimStrings` is not modelled).
- Catalog.StoreTestimonial: name, message, e-mail and designation are stored untrimmed, and the 255-character limit is measured on the untrimmed text (`TrimStrings` is not modelled).
- Catalog.UpdateTestimonial: as for store, the fields are untrimmed (`TrimStrings` is not modelled).
- Catalog.SearchProducts: the search term is matched untrimmed (`TrimStrings` is not modelled).
- Catalog.StoredImagesRoundTrip: states the round trip only for paths shaped like the storage layer's output. A path whose last character is a slash or quote would be trimmed.
- Catalog.ViewTestimonial: models the avatar list as a plain list. The controller's `array_filter` at TestimonialController.php:26 leaves key gaps in the same way as the product images, which would make the JSON an object. The gap is modelled and proved for the product helper only.
- Catalog.NewArrivals: when creation times tie, `ORDER BY created_at DESC` has no fixed order. The model picks one and the contracts do not depend on which.
- Response fields other than the image lists are passed through untouched in the model. This covers `category` in index, show and newArrivals, and `success` in update.
- The server-side `destroy` handlers for products and testimonials are left out. They delete unconditionally, and route-model binding's 404 is framework behaviour.
- The chat page's scroll geometry (`isAtBottom`, auto-scroll) and toasts/alerts are presentation only.
- The products page's category-create form and its refetch after a failed delete are left out, as are the login, register, contact and inquiry pages. None of them hold logic beyond a request.

## Findings

| source | as written | input that shows it | evidently intended | confidence | as-written member | corrected member |
|---|---|---|---|---|---|---|
| backend/app/Http/Controllers/ProductController.php:85-87 | `array_filter` drops falsy URLs but keeps the original keys, so the array returned is not a list once an early entry was dropped; `json_encode` then emits a JSON object `{"1": "..."}` instead of an array | a stored `images` column whose paths are `""` then `products/a.jpg` (any blank entry before a product path) gives keys `[1]` | the frontend expects `images` to be a JSON array (it maps over it), i.e. the kept URLs re-indexed 0..n-1 (`array_values`) | high, not executed | Images.GetImageUrlsAsWritten (counterexample: Images.AsWrittenGivesJsonObject) | Images.ReindexedImageUrls |
| backend/app/Models/Product.php:25-36 | the `image_urls` accessor takes `$this->images` as the list of paths, but the store and update handlers (ProductController.php:115, :160) save `json_encode($images)` into the `array`-cast column, so the attribute reads back as the JSON text; the accessor trims only its outer `["` and `"]` and puts the rest under `storage/` as one URL | no upload: the column text `[]` gives `["http://127.0.0.1:8000/storage"]`, not the placeholder; one upload `products/a.jpg` gives `["http://127.0.0.1:8000/storage/products\/a.jpg"]`, with the escaped slash | the accessor decodes the column as `getImageUrls` does, giving the placeholder or one storage URL per upload | high, not executed | Catalog.AccessorOnEncodedColumn (discrepancy: Catalog.AccessorMissesEncodedColumn) | Images.DecodedAccessorImageUrls (proved: Catalog.AccessorAgreesWithController) |
