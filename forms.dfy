/**
  `GoodsForm` of marketplace/forms.py: a model form over `Goods` that binds a
  fixed list of eleven fields. Binding validates those fields with the model's
  own column rules; saving copies them onto a row and leaves every other field
  of the row alone.
 */
module Forms {
  import opened Wrappers
  import opened Goods

  /** The cleaned data of a bound `GoodsForm`, one value per listed field. */
  datatype Fields = Fields(
    name: string,
    price: Decimal,
    description: string,
    major: string,
    professor: string,
    category: string,
    courseCode: string,
    amountUsage: string,
    paymentMethods: string,
    additionalInfo: string,
    outcomeDescription: string)

  /** `GoodsForm.Meta.fields`. */
  const FormFields: seq<FieldName> := [
    Name, Price, Description,
    Major, Professor, Category, CourseCode,
    AmountUsage, PaymentMethods, AdditionalInfo,
    OutcomeDescription
  ]

  /** The value the form binds to a model field, if the form lists that field. */
  function Bound(f: Fields, fn: FieldName): (r: Option<Value>)
    ensures r.Some? <==> fn in FormFields
  {
    match fn
    case Name => Some(Text(f.name))
    case Price => Some(Amount(f.price))
    case Description => Some(Text(f.description))
    case Major => Some(Text(f.major))
    case Professor => Some(Text(f.professor))
    case Category => Some(Text(f.category))
    case CourseCode => Some(Text(f.courseCode))
    case AmountUsage => Some(Text(f.amountUsage))
    case PaymentMethods => Some(Text(f.paymentMethods))
    case AdditionalInfo => Some(Text(f.additionalInfo))
    case OutcomeDescription => Some(Text(f.outcomeDescription))
    case Id | CreatedAt | Seller => None
  }

  /** The form binds exactly eleven distinct fields, and neither the primary
      key, the creation time nor the seller is among them. */
  lemma FormFieldsExact()
    ensures |FormFields| == 11
    ensures forall i, j :: 0 <= i < j < |FormFields| ==> FormFields[i] != FormFields[j]
    ensures Id !in FormFields && CreatedAt !in FormFields && Seller !in FormFields
  {
  }

  /** `form.is_valid()`: every bound field passes its model column's rules. */
  predicate IsValid(f: Fields)
  {
    forall fn :: fn in FormFields ==> FieldValid(fn, Bound(f, fn).value)
  }

  /** `form.save()` on an existing row: each bound field takes the form's
      value, every other field keeps the row's. */
  function Save(x: Item, f: Fields): (r: Item)
    ensures forall fn :: Get(r, fn) == if fn in FormFields then Bound(f, fn).value else Get(x, fn)
    ensures r.id == x.id && r.createdAt == x.createdAt && r.seller == x.seller
  {
    x.(name := f.name, price := f.price, description := f.description,
       major := f.major, professor := f.professor, category := f.category,
       courseCode := f.courseCode, amountUsage := f.amountUsage,
       paymentMethods := f.paymentMethods, additionalInfo := f.additionalInfo,
       outcomeDescription := f.outcomeDescription)
  }

  /** `form.save()` of a new row with the given key, creation time and seller. */
  function NewItem(id: ItemId, createdAt: int, seller: Option<UserId>, f: Fields): (r: Item)
    ensures r.id == id && r.createdAt == createdAt && r.seller == seller
    ensures forall fn :: fn in FormFields ==> Get(r, fn) == Bound(f, fn).value
  {
    Item(id, f.name, f.description, f.price, createdAt, seller, f.major,
         f.professor, f.category, f.courseCode, f.amountUsage,
         f.paymentMethods, f.additionalInfo, f.outcomeDescription)
  }

  /** Form validation is model validation: a form is valid exactly when the
      row it saves passes every `Goods` column rule. */
  lemma {:induction false} IsValidIffSavedRowValid(x: Item, f: Fields)
    ensures IsValid(f) <==> ValidItem(Save(x, f))
  {
    var r := Save(x, f);
    if IsValid(f) {
      forall fn ensures FieldValid(fn, Get(r, fn)) {
        if fn !in FormFields {
          assert fn == Id || fn == CreatedAt || fn == Seller;
        }
      }
    }
    if ValidItem(r) {
      forall fn | fn in FormFields ensures FieldValid(fn, Bound(f, fn).value) {
        assert Get(r, fn) == Bound(f, fn).value;
      }
    }
  }

  /** The same holds of a newly created row, whoever its seller is. */
  lemma {:induction false} IsValidIffNewRowValid(id: ItemId, createdAt: int, seller: Option<UserId>, f: Fields)
    ensures IsValid(f) <==> ValidItem(NewItem(id, createdAt, seller, f))
  {
    var x := NewItem(id, createdAt, seller, f);
    assert Save(x, f) == x;
    IsValidIffSavedRowValid(x, f);
  }
}
