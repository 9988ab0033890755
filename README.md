# Patch-Marketplace in Dafny

Patch is a Django marketplace where art students sell used supplies. Each
listing (`Goods`) has a name, a price and a description. It carries
major/category tags and up to three product images and five "outcome"
images. Signed-in users post, edit and delete their own listings. They also
favourite listings and message sellers. A small REST API lists, creates,
reads, replaces and deletes listings.

This project models the application logic of that system over an explicit
store that stands in for the database:

- `goods.dfy`: the `Goods` row and its column rules, in module `Goods`.
  - The `MAJOR_CHOICES` and `CATEGORY_CHOICES` lists, with blank allowed.
  - Length caps on the text fields.
  - The `DecimalField(max_digits=10, decimal_places=2)` rule for the price.
    The model proves this rule is the same as whole cents of magnitude
    below 10^10. The price has no sign constraint.
  - The newest-first default order and the ascending image `order`.
  - A small `Wrappers` module supplies `Option`.
- `forms.dfy`: `GoodsForm`, in module `Forms`.
  - Its eleven bound fields.
  - Validation, which is the model's column validation.
  - `save()`, which copies exactly those fields onto a row.
- `querysets.dfy`: the part of a QuerySet the views use, in module
  `QuerySets`. It covers `filter`, which keeps catalog order (proved as a
  subsequence), and slicing.
- `catalog.dfy`: the read-only views as functions, in module `Catalog`.
  - `shop`, with case-insensitive search over four fields, the major and
    category filters and the page title.
  - `item_detail`, with at most four related items and the
    favourited flag.
  - `my_account` and `favorites_list`.
- `marketplace.dfy`: the state-changing views, in module `Marketplace`.
  - They are `post_item`, `edit_item`, `delete_item`, `message_seller` and
    `toggle_favorite`.
  - Each is a method of class `Store`, which holds:
    - the catalog, newest first;
    - each item's product and outcome images;
    - the (user, item) favourite pairs;
    - the messages.
  - `Store.Valid()` is kept by every method. It says:
    - keys are distinct;
    - the catalog is newest first;
    - image lists are bounded and numbered from 0;
    - favourites and messages refer only to existing items.
- `api.dfy`: `goods_list` and `goods_detail` of the REST API, as methods on
  the same store that return a status, in module `Api`.

The signed-in user is a parameter of every view that requires a login. The
time a row is created comes from a clock kept in the store. That clock
strictly increases, which is what makes the newest-first order an
invariant. Whether the REST serializer accepts a payload is a boolean
parameter. The serializer's rules are not part of this model.

Behaviour of the code worth noting, which the model keeps:

- **Ownership check.** `edit_item` and `delete_item` refuse anyone who is
  not the recorded seller (marketplace/views.py:175, :197). `seller` is
  always a field, so `hasattr` always holds. A listing whose seller is
  `None` is therefore refused to everyone, not open to all.
- **Shop filters.** The search, major and category filters are chained, so
  a listed row passes all of them (marketplace/views.py:25-40).
- **Price sign.** Nothing rejects a negative price (goods/models.py:51).
- **Invalid API POST.** An invalid POST to `goods_list` falls off the end of
  the view and returns nothing (api/views.py:15-19). The model keeps this
  as `NoResponse` and does not repair it.

## Model

| member | source | states |
|---|---|---|
| Goods.Label | marketplace/views.py:49-51 | `dict(choices).get(key)` finds a label exactly when the key is among the choice keys, and the label it finds is paired with that key in the list |
| Goods.LabelOfDistinct | goods/models.py:25-38 | with distinct keys, the key-to-label lookup gives a label exactly when that (key, label) pair is in the list, so the lookup is a function |
| Goods.MajorChoicesWellFormed | goods/models.py:9-23 | there are 13 majors with distinct, non-empty keys that fit the 50-character column |
| Goods.CategoryChoicesWellFormed | goods/models.py:25-38 | there are 12 categories with distinct, non-empty keys that fit the 50-character column |
| Goods.ValidItemIff | goods/models.py:49-67 | a row passes validation exactly when: the name is 1 to 200 characters; the price passes the decimal rule; major and category are blank or one of the listed keys; professor has at most 100 characters; course code at most 50; payment methods at most 200 |
| Goods.ValidPriceIsCentsBound | goods/models.py:51 | the price passes `max_digits=10, decimal_places=2` exactly when it has at most 2 decimal places and its value in cents lies strictly between -10^10 and 10^10 |
| Goods.ValidPriceIsDigitBound | goods/models.py:51 | with at most 2 decimal places, the 10-digit limit comes down to at most 8 digits before the point |
| Goods.PriceSignIsFree | goods/models.py:51 | negating a price never changes whether it passes: there is no sign constraint |
| Goods.NumberedIsDisplayOrder | goods/models.py:87-88 | image lists numbered 0, 1, 2, ... are already in ascending display `order` |
| Forms.Bound | marketplace/forms.py:11-16 | the form binds a value for a model field exactly when that field is in `Meta.fields` |
| Forms.FormFieldsExact | marketplace/forms.py:11-16 | the form binds 11 distinct fields, and neither `id`, `created_at` nor `seller` is among them |
| Forms.Save | marketplace/forms.py:11-16 | saving a bound form onto a row sets each bound field to the form's value and keeps every other field, so key, creation time and seller never change |
| Forms.NewItem | marketplace/views.py:146-150 | a newly saved row gets the given key, creation time and seller, and the form's value in every bound field |
| Forms.IsValidIffSavedRowValid | marketplace/forms.py:9-10 | a form is valid exactly when the row it saves passes every `Goods` column rule |
| Forms.IsValidIffNewRowValid | marketplace/forms.py:9-10 | a form is valid exactly when the new row it creates passes every `Goods` column rule, whoever its seller is |
| QuerySets.Filter | marketplace/views.py:37-40 | `filter` returns the rows that satisfy the condition, each as many times as it occurs in the query and none that fails it, in their original order (a subsequence) |
| QuerySets.TakeFilterEarliest | marketplace/views.py:72-74 | `filter(...)[:n]` over distinct rows takes the earliest matches: a matching row before one that made the cut made it too |
| QuerySets.SubseqPairwise | goods/models.py:72-75 | dropping rows keeps every order relation between the rows that remain, so a filtered query keeps the default ordering |
| QuerySets.FilterFilter | marketplace/views.py:37-40 | two chained filters give the same rows as one filter on the conjunction |
| Catalog.FindItem | marketplace/views.py:69 | the lookup by key succeeds exactly when some row has that key, and it returns such a row |
| Catalog.FindItemUnique | api/views.py:25 | when keys are distinct, the lookup by a row's key returns that very row |
| Catalog.FilterKeepsNewestFirst | goods/models.py:72-75 | any filter of a newest-first catalog is newest first |
| Catalog.ContainsIff | marketplace/views.py:26-31 | the substring test holds exactly when the query occurs at some position of the text |
| Catalog.ShopIsOneFilter | marketplace/views.py:34-40 | the search, major and category stages, each skipped when its input is empty, give the same rows as one filter on their conjunction |
| Catalog.ShopResults | marketplace/views.py:19-40 | `shop` lists exactly the catalog rows that match the query case-insensitively in name, description, professor or course code, AND have the given major, AND have the given category (each test applies only when its input is non-empty); the result is a subsequence of the catalog and newest first when the catalog is |
| Catalog.SelectedTitlePrecedence | marketplace/views.py:47-53 | the page title is: the major's label (or "All" for an unknown major) when a major filter is given; else the category's label (or "All"); else `Search: "q"`; else "All" |
| Catalog.Related | marketplace/views.py:72-74 | related items: at most 4; each is another row (different key) sharing the item's category or its major; in catalog order; fewer than 4 only when every qualifying row is included; with distinct keys, the first qualifying rows of the catalog (no qualifying row is skipped for a later one) |
| Catalog.ItemDetail | marketplace/views.py:67-86 | not found exactly for an unknown key; otherwise gives the row with that key, its related items, and a flag that holds exactly when a signed-in viewer has favourited it |
| Catalog.MyItems | marketplace/views.py:130 | `my_account` lists exactly the rows whose seller is the user, in catalog order |
| Marketplace.NumberUploads | marketplace/views.py:153-158 | the loop stores the first min(n, limit) uploads, the i-th with order i |
| Marketplace.EditedKeepsKeysAndOrder | marketplace/views.py:180-182 | an edit keeps the set of keys, distinct keys, the newest-first order and every row's creation time |
| Marketplace.EditTouchesOnlyFormFields | marketplace/forms.py:11-16 | an edit changes only the edited row, and in it only the form's fields; every other field of every row keeps its value |
| Marketplace.Toggled | marketplace/views.py:240-248 | the toggled pair is a favourite afterwards exactly when it was not before; every other pair keeps its membership |
| Marketplace.ToggleTwice | marketplace/views.py:240-248 | toggling the same pair twice restores the favourites |
| Catalog.FavoriteItems | marketplace/views.py:253-259 | `favorites_list` holds exactly the catalog rows the user has favourited, and never more rows than the catalog has |
| Marketplace.ToggleFavoriteItems | marketplace/views.py:253-259 | after a toggle, the toggled item is in the user's favourites list exactly when it was not before; no other item of that list changes; every other user's list is unchanged |
| Marketplace.CatalogOkAfterCreate | goods/models.py:72-75 | putting a row with the next key and the current time at the front keeps keys distinct and the catalog newest first, and adds exactly that key |
| Marketplace.CatalogOkAfterEdit | goods/models.py:72-75 | an edit keeps the catalog invariant and the set of keys |
| Marketplace.CatalogOkAfterDelete | goods/models.py:72-75 | removing a key keeps the catalog invariant, and the keys become the old keys minus that key |
| Marketplace.ImagesOkAfterAdd | goods/models.py:83 | adding a bounded, numbered image list for a new key keeps one such list per item |
| Marketplace.ImagesOkAfterRemove | goods/models.py:98 | dropping a key's image list along with the key keeps one list per remaining item |
| Marketplace.RefsOkAfterDelete | marketplace/views.py:202 | after the cascade, favourites and messages refer only to the remaining items |
| Marketplace.Store.Create | marketplace/views.py:146-158 | a new row with the next unused key, the current time and the given seller goes first in the catalog, with exactly the given image lists; favourites and messages are unchanged |
| Marketplace.Store.Update | marketplace/views.py:180-182 | the row with the key is rewritten with the form's fields, and nothing else in the store changes |
| Marketplace.Store.Delete | goods/models.py:83 | the row goes, and with it, by cascade, its product and outcome images, its favourites and its messages; the other rows stay in their order |
| Marketplace.Store.PostItem | marketplace/views.py:135-165 | a valid POST creates exactly one row, sold by the user, whose product and outcome images are the first min(n, 3) and min(m, 5) uploads numbered from 0; a GET or an invalid form changes nothing |
| Marketplace.Store.EditItem | marketplace/views.py:168-188 | unknown key: not found. Anyone but the recorded seller (everyone, when the seller is `None`): refused, nothing changes. The seller's valid POST: rewrites exactly the form's fields of that row. The seller's GET or invalid POST: changes nothing |
| Marketplace.Store.DeleteItem | marketplace/views.py:191-206 | unknown key: not found. Anyone but the recorded seller: refused, nothing changes. The seller's POST: removes the row and its images, favourites and messages. The seller's GET: changes nothing |
| Marketplace.Store.MessageSeller | marketplace/views.py:209-232 | a POST with present, non-empty content appends exactly one message (item, sender, content); otherwise nothing changes, and the thread shown is the item's messages, each as many times as it is stored, in stored order |
| Marketplace.Store.ToggleFavorite | marketplace/views.py:235-250 | unknown key: not found, nothing changes. Otherwise the (user, item) pair flips, `added` reports whether it was absent, and nothing else changes |
| Api.GoodsList | api/views.py:9-19 | GET returns every row in catalog order. A valid POST answers 201 with the one new row, which has no seller and goes first, with empty product and outcome image lists; no other row's images, no favourite and no message change. An invalid POST changes nothing and returns no response |
| Api.GoodsDetail | api/views.py:22-39 | any verb on an unknown key: 404, nothing changes. GET: 200 with the row. Valid PUT: 200, only that row's form fields change. Invalid PUT: 400, nothing changes. DELETE: 204, the key is gone along with its images, favourites and messages, and the other rows keep their order |

## Left out

- Registration, login and logout (marketplace/views.py:89-124): sessions and password handling belong to the framework. The signed-in user is a parameter.
- Template rendering, flash messages, form widgets, labels and CSS: presentation only. A view's result is an `Outcome` tag.
- `checkout` (marketplace/views.py:263-290): it draws a random order number and changes no state.
- The admin configuration (goods/admin.py) and the URL tables (marketplace/urls.py, api/urls.py): configuration, not logic.
- Image file contents and storage: an upload is an opaque token.
- `PAYMENT_CHOICES` (goods/models.py:40-46): no field uses it, so it constrains nothing.
- The `Message` and `Favorite` model definitions and `api/serializers.py` are not part of this model. The following are assumptions, not facts from the source:
  - a message holds item, sender and content;
  - deleting an item deletes its messages and favourites;
  - favourites are a set of (user, item) pairs, so a pair is stored at most once (through `toggle_favorite` alone no duplicate can arise);
  - serializer validity is an opaque boolean, and the serializer's payload is the form's eleven fields.
- Marketplace.Store.Create: `created_at` comes from a store clock that strictly increases, so a new row always goes first. Equal timestamps, or a system clock that steps backwards, are not modelled; under those the database order of such rows could differ.
- Catalog.FavoriteItems: `favorites_list` is modelled as a set of rows, because the ordering of `Favorite` rows is not known.
- Marketplace.Store.MessageSeller: the order of a thread is the order messages are stored in. The `Message` default ordering is not known.
- The race between the lookup and the insert in `get_or_create`: concurrency.
- Catalog.IContains: case-insensitivity is ASCII lower-casing; Unicode case folding is not modelled.
- Forms.IsValid: Django's form fields strip surrounding whitespace and parse the submitted text before validating it. The model starts from the cleaned values: strings as given, and the price as a decimal (digits and a number of places).
- Goods.ValidPrice: only non-positive exponents (zero or more decimal places) are modelled. A `Decimal` with a positive exponent such as `1E+3` is not represented.
- Answers to HTTP verbs the API decorators do not list (405) are not modelled: the verb types hold only the listed verbs.
