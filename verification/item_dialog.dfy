/** The item dialog: the form schema with its per-field rules and contextual
    name-uniqueness refinement, the values the form starts from, and the payload
    assembled on submit. */
module ItemDialog {
  import opened Wrappers
  import opened Types
  import Text

  /** Whether the dialog creates a new item or edits an existing one. */
  datatype Mode = Add | Edit

  /** The values the schema parses, after numeric coercion. The three free-text
      fields the form has no input for may be absent. */
  datatype FormValues = FormValues(
    id: string,
    name: string,
    description: Option<string>,
    category: string,
    quantity: real,
    price: real,
    supplier: Option<string>,
    lastUpdated: Option<string>)

  /** One schema violation. */
  datatype Issue =
    | NameTooShort
    | NameTooLong
    | NameTaken
    | DescriptionRequired
    | CategoryMissing
    | QuantityNotInteger
    | QuantityNotPositive
    | PriceNotPositive
    | SupplierRequired
    | LastUpdatedRequired

  const MinNameLength: nat := 2
  const MaxNameLength: nat := 20

  /** `r` has no fractional part (zod's `.int()`). */
  predicate IsWhole(r: real) {
    r.Floor as real == r
  }

  /** An existing item already uses `name`, ignoring case. */
  predicate NameInUse(name: string, existing: seq<Item>) {
    exists x :: x in existing && Text.SameFold(x.name, name)
  }

  /** The uniqueness refinement: the edited item's own name (in any case) is
      always allowed, any other name must not be in use. */
  predicate NameAvailable(name: string, existing: seq<Item>, current: Option<Item>) {
    (current.Some? && Text.SameFold(name, current.value.name)) || !NameInUse(name, existing)
  }

  /** The rule behind each issue, as a condition on the form values. */
  predicate Violates(v: FormValues, existing: seq<Item>, current: Option<Item>, e: Issue) {
    match e
    case NameTooShort => |v.name| < MinNameLength
    case NameTooLong => |v.name| > MaxNameLength
    case NameTaken => !NameAvailable(v.name, existing, current)
    case DescriptionRequired => v.description.None?
    case CategoryMissing => |v.category| == 0
    case QuantityNotInteger => !IsWhole(v.quantity)
    case QuantityNotPositive => v.quantity <= 0.0
    case PriceNotPositive => v.price <= 0.0
    case SupplierRequired => v.supplier.None?
    case LastUpdatedRequired => v.lastUpdated.None?
  }

  /** The issue `e`, raised exactly when `violated`. */
  function Check(violated: bool, e: Issue): (r: seq<Issue>)
    ensures e in r <==> violated
    ensures forall d :: d in r ==> d == e
  {
    if violated then [e] else []
  }

  /** The per-field rules; the other three issues only say a free-text field is absent. */
  predicate FieldRule(e: Issue) {
    !(e.DescriptionRequired? || e.SupplierRequired? || e.LastUpdatedRequired?)
  }

  /** The issues of the name key: both length checks and the uniqueness
      refinement. zod runs the refinement even after a failed length check, so
      all three can be raised. */
  function NameIssues(v: FormValues, existing: seq<Item>, current: Option<Item>): (r: seq<Issue>)
    ensures forall e :: e in r <==> (e.NameTooShort? || e.NameTooLong? || e.NameTaken?) && Violates(v, existing, current, e)
  {
    Check(|v.name| < MinNameLength, NameTooShort) +
    Check(|v.name| > MaxNameLength, NameTooLong) +
    Check(!NameAvailable(v.name, existing, current), NameTaken)
  }

  /** The issues of the category, quantity and price keys, in schema order. */
  function OtherIssues(v: FormValues): (r: seq<Issue>)
    ensures forall e :: e in r <==>
      || (e.CategoryMissing? && |v.category| == 0)
      || (e.QuantityNotInteger? && !IsWhole(v.quantity))
      || (e.QuantityNotPositive? && v.quantity <= 0.0)
      || (e.PriceNotPositive? && v.price <= 0.0)
  {
    Check(|v.category| == 0, CategoryMissing) +
    Check(!IsWhole(v.quantity), QuantityNotInteger) +
    Check(v.quantity <= 0.0, QuantityNotPositive) +
    Check(v.price <= 0.0, PriceNotPositive)
  }

  /** The value every per-field rule accepts. */
  ghost predicate Acceptable(v: FormValues, existing: seq<Item>, current: Option<Item>) {
    && MinNameLength <= |v.name| <= MaxNameLength
    && NameAvailable(v.name, existing, current)
    && |v.category| > 0
    && IsWhole(v.quantity) && v.quantity > 0.0
    && v.price > 0.0
  }

  /** The per-field issues: what both schemas raise for the name, category,
      quantity and price keys. */
  function FieldIssues(v: FormValues, existing: seq<Item>, current: Option<Item>): (r: seq<Issue>)
    ensures forall e :: e in r <==> FieldRule(e) && Violates(v, existing, current, e)
    ensures |r| == 0 <==> Acceptable(v, existing, current)
  {
    var names := NameIssues(v, existing, current);
    var others := OtherIssues(v);
    assert NameTooShort in names <==> |v.name| < MinNameLength;
    assert NameTooLong in names <==> |v.name| > MaxNameLength;
    assert NameTaken in names <==> !NameAvailable(v.name, existing, current);
    assert CategoryMissing in others <==> |v.category| == 0;
    assert QuantityNotInteger in others <==> !IsWhole(v.quantity);
    assert QuantityNotPositive in others <==> v.quantity <= 0.0;
    assert PriceNotPositive in others <==> v.price <= 0.0;
    names + others
  }

  /** `createItemSchema(existingItems, currentItem)` parsing `v`, exactly as
      written: the description, supplier and timestamp must be strings, so an
      absent one is an issue. Every violated rule is reported, in key order. */
  function ValidateAsWritten(v: FormValues, existing: seq<Item>, current: Option<Item>): (r: Result<FormValues, seq<Issue>>)
    ensures r.Ok? <==> Acceptable(v, existing, current) &&
                       v.description.Some? && v.supplier.Some? && v.lastUpdated.Some?
    ensures r.Ok? ==> r.value == v
    ensures r.Err? ==> |r.error| > 0
    ensures r.Err? ==> forall e :: e in r.error <==> Violates(v, existing, current, e)
  {
    var names := NameIssues(v, existing, current);
    var description := Check(v.description.None?, DescriptionRequired);
    var others := OtherIssues(v);
    var tail := Check(v.supplier.None?, SupplierRequired) + Check(v.lastUpdated.None?, LastUpdatedRequired);
    FieldIssuesSplit(v, existing, current);
    var issues := names + description + others + tail;
    assert |issues| == 0 <==> |names + others| == 0 && |description| == 0 && |tail| == 0;
    if |issues| == 0 then Ok(v) else Err(issues)
  }

  /** The per-field issues are the name issues followed by the other field issues. */
  lemma FieldIssuesSplit(v: FormValues, existing: seq<Item>, current: Option<Item>)
    ensures FieldIssues(v, existing, current) == NameIssues(v, existing, current) + OtherIssues(v)
  {
  }

  /** The schema with absent free-text fields accepted; submit replaces them with
      "" (or with the timestamp), so no other rule changes. */
  function Validate(v: FormValues, existing: seq<Item>, current: Option<Item>): (r: Result<FormValues, seq<Issue>>)
    ensures r.Ok? <==> Acceptable(v, existing, current)
    ensures r.Ok? ==> r.value == v
    ensures r.Err? ==> |r.error| > 0
    ensures r.Err? ==> forall e :: e in r.error <==> FieldRule(e) && Violates(v, existing, current, e)
  {
    var issues := FieldIssues(v, existing, current);
    if |issues| == 0 then Ok(v) else Err(issues)
  }

  /** Whenever the free-text fields are present, both schemas agree. */
  lemma AsWrittenAgrees(v: FormValues, existing: seq<Item>, current: Option<Item>)
    requires v.description.Some? && v.supplier.Some? && v.lastUpdated.Some?
    ensures ValidateAsWritten(v, existing, current) == Validate(v, existing, current)
  {
    var n, o := NameIssues(v, existing, current), OtherIssues(v);
    assert n + [] + o + ([] + []) == n + o;
  }

  /** The schema context: only an edit exempts the current item's name. */
  function SchemaContext(mode: Mode, item: Option<Item>): Option<Item> {
    if mode == Edit then item else None
  }

  /** The empty form; `loadStamp` is the ISO time taken once when the module loads. */
  function DefaultValues(loadStamp: string): FormValues {
    FormValues("", "", Some(""), "", 0.0, 0.0, Some(""), Some(loadStamp))
  }

  /** The form for editing `item`: its own fields, numbers passed through `Number`. */
  function EditValues(item: Item): FormValues {
    FormValues(item.id, item.name, item.description, item.category,
      item.quantity as real, item.price, item.supplier, item.lastUpdated)
  }

  /** The values the form is reset to when it opens. */
  function StartValues(mode: Mode, item: Option<Item>, loadStamp: string): FormValues {
    if mode == Edit && item.Some? then EditValues(item.value) else DefaultValues(loadStamp)
  }

  /** The form after the user fills in the four inputs the dialog shows. */
  function Entered(start: FormValues, name: string, category: string, quantity: real, price: real): FormValues {
    start.(name := name, category := category, quantity := quantity, price := price)
  }

  /** `onSubmit`'s `itemToSave` for parsed values `v`. `timestamp` is the time of
      the submit and `generatedId` what `generateId()` would return. */
  function ItemToSave(v: FormValues, mode: Mode, item: Option<Item>, timestamp: string, generatedId: string): (r: Item)
    requires IsWhole(v.quantity)
    ensures r.name == v.name && r.category == v.category && r.price == v.price
    ensures r.quantity as real == v.quantity
    ensures mode == Edit && item.Some? ==> r.id == item.value.id
    ensures !(mode == Edit && item.Some?) && v.id != "" ==> r.id == v.id
    ensures !(mode == Edit && item.Some?) && v.id == "" ==> r.id == generatedId
    ensures r.description == Some(v.description.GetOr(""))
    ensures r.supplier == Some(v.supplier.GetOr(""))
    ensures mode == Edit ==> r.lastUpdated == Some(timestamp)
    ensures mode == Add ==> r.lastUpdated == Some(if v.lastUpdated.GetOr("") != "" then v.lastUpdated.value else timestamp)
  {
    var id := if mode == Edit && item.Some? then item.value.id
              else if v.id != "" then v.id else generatedId;
    var stamp := if mode == Edit then timestamp
                 else if v.lastUpdated.GetOr("") != "" then v.lastUpdated.GetOr("") else timestamp;
    Item(id, v.name, v.category, v.quantity.Floor, v.price,
      Some(v.description.GetOr("")), Some(v.supplier.GetOr("")), Some(stamp))
  }

  /** An item that passed validation satisfies every per-field rule. */
  predicate ValidItem(x: Item) {
    && MinNameLength <= |x.name| <= MaxNameLength
    && |x.category| > 0
    && x.quantity > 0
    && x.price > 0.0
  }

  /** Whatever is saved after a successful validation is a valid item carrying
      all three free-text fields. */
  lemma SavedItemValid(v: FormValues, existing: seq<Item>, current: Option<Item>, mode: Mode,
                       item: Option<Item>, timestamp: string, generatedId: string)
    requires Validate(v, existing, current).Ok?
    ensures IsWhole(v.quantity)
    ensures ValidItem(ItemToSave(v, mode, item, timestamp, generatedId))
    ensures ItemToSave(v, mode, item, timestamp, generatedId).description.Some?
  {
    var r := ItemToSave(v, mode, item, timestamp, generatedId);
    assert r.quantity as real == v.quantity;
  }

  /** A name of 2 or of 20 characters passes the length rules, 1 and 21 do not. */
  lemma NameLengthBoundaries(v: FormValues, existing: seq<Item>, current: Option<Item>)
    ensures |v.name| == 2 || |v.name| == 20 ==>
      !Violates(v, existing, current, NameTooShort) && !Violates(v, existing, current, NameTooLong)
    ensures |v.name| == 1 ==> NameTooShort in Validate(v, existing, current).error
    ensures |v.name| == 21 ==> NameTooLong in Validate(v, existing, current).error
  {
  }

  /** The category rule only asks for one character: a blank is accepted. */
  lemma CategoryNotTrimmed(v: FormValues, existing: seq<Item>, current: Option<Item>)
    requires v.category == " "
    ensures !Violates(v, existing, current, CategoryMissing)
  {
  }

  /** Quantity must be a whole number above zero: 0, negatives and fractions fail. */
  lemma QuantityRule(v: FormValues, existing: seq<Item>, current: Option<Item>)
    ensures v.quantity <= 0.0 ==> QuantityNotPositive in Validate(v, existing, current).error
    ensures !IsWhole(v.quantity) ==> QuantityNotInteger in Validate(v, existing, current).error
    ensures v.quantity == 1.0 ==> !Violates(v, existing, current, QuantityNotInteger) &&
                                  !Violates(v, existing, current, QuantityNotPositive)
  {
  }

  /** Price must be strictly positive. */
  lemma PriceRule(v: FormValues, existing: seq<Item>, current: Option<Item>)
    ensures v.price <= 0.0 ==> PriceNotPositive in Validate(v, existing, current).error
    ensures v.price > 0.0 ==> !Violates(v, existing, current, PriceNotPositive)
  {
  }

  /** Adding: a name equal, ignoring case, to any existing item's name is rejected. */
  lemma AddDuplicateRejected(v: FormValues, existing: seq<Item>, x: Item)
    requires x in existing && Text.SameFold(x.name, v.name)
    ensures NameTaken in Validate(v, existing, None).error
  {
  }

  /** Editing: the edited item's own name, in any case, is accepted whatever the
      other items are called. */
  lemma EditOwnNameAccepted(v: FormValues, existing: seq<Item>, cur: Item)
    requires Text.SameFold(v.name, cur.name)
    ensures !Violates(v, existing, Some(cur), NameTaken)
  {
  }

  /** Editing: a new name that matches a different existing item is rejected. */
  lemma EditOtherNameRejected(v: FormValues, existing: seq<Item>, cur: Item, x: Item)
    requires x in existing && Text.SameFold(x.name, v.name)
    requires !Text.SameFold(v.name, cur.name)
    ensures NameTaken in Validate(v, existing, Some(cur)).error
  {
  }

  /** Saving an edit: the edited item keeps its id, is stamped with the submit
      time, and keeps its description and supplier ("" when it had none). */
  lemma EditSaveKeepsIdentity(x: Item, existing: seq<Item>, name: string, category: string,
                              quantity: real, price: real, loadStamp: string, timestamp: string, generatedId: string)
    requires Validate(Entered(StartValues(Edit, Some(x), loadStamp), name, category, quantity, price),
                      existing, SchemaContext(Edit, Some(x))).Ok?
    ensures var v := Entered(StartValues(Edit, Some(x), loadStamp), name, category, quantity, price);
            var r := ItemToSave(v, Edit, Some(x), timestamp, generatedId);
            && r.id == x.id
            && r.lastUpdated == Some(timestamp)
            && r.description == Some(x.description.GetOr(""))
            && r.supplier == Some(x.supplier.GetOr(""))
            && r.name == name && r.category == category && r.price == price
            && r.quantity as real == quantity
  {
  }

  /** Saving a new item from the empty form: its id is the generated one, its
      free-text fields are "", and its stamp is the one taken when the module
      loaded, not the submit time. */
  lemma AddSaveUsesLoadStamp(existing: seq<Item>, name: string, category: string, quantity: real,
                             price: real, loadStamp: string, timestamp: string, generatedId: string)
    requires loadStamp != ""
    requires Validate(Entered(StartValues(Add, None, loadStamp), name, category, quantity, price),
                      existing, SchemaContext(Add, None)).Ok?
    ensures var v := Entered(StartValues(Add, None, loadStamp), name, category, quantity, price);
            var r := ItemToSave(v, Add, None, timestamp, generatedId);
            && r.id == generatedId
            && r.lastUpdated == Some(loadStamp)
            && r.description == Some("") && r.supplier == Some("")
  {
  }
}
