/** The usual Some/None datatype for a value that may be absent. */
module Wrappers {
  datatype Option<+T> = None | Some(value: T)
}

/**
  The `Goods`, `GoodsImage` and `OutcomeImage` records of goods/models.py: the
  fixed choice lists, the constraints each field puts on a value, and the order
  in which the catalog and the images are listed.
 */
module Goods {
  import opened Wrappers

  type UserId = nat
  type ItemId = nat
  /** An uploaded image file; its content and storage are opaque here. */
  type Upload = nat

  /** A decimal number `unscaled / 10^places`, as Python's Decimal holds it
      (a signed digit string and a non-positive exponent). */
  datatype Decimal = Decimal(unscaled: int, places: nat)

  /** One `Goods` row. */
  datatype Item = Item(
    id: ItemId,
    name: string,
    description: string,
    price: Decimal,
    createdAt: int,
    seller: Option<UserId>,
    major: string,
    professor: string,
    category: string,
    courseCode: string,
    amountUsage: string,
    paymentMethods: string,
    additionalInfo: string,
    outcomeDescription: string)

  /** One `GoodsImage` or `OutcomeImage` row of an item. */
  datatype Image = Image(file: Upload, order: int)

  /** The model fields of `Goods`, by name. */
  datatype FieldName =
    | Id | Name | Description | Price | CreatedAt | Seller | Major | Professor
    | Category | CourseCode | AmountUsage | PaymentMethods | AdditionalInfo
    | OutcomeDescription

  /** The value a field holds, tagged by its column kind. */
  datatype Value =
    | Key(n: nat)
    | Text(s: string)
    | Amount(d: Decimal)
    | Stamp(t: int)
    | Owner(u: Option<UserId>)

  /** Reads one field of a row, the way the ORM's attribute access does. */
  function Get(x: Item, fn: FieldName): Value
  {
    match fn
    case Id => Key(x.id)
    case Name => Text(x.name)
    case Description => Text(x.description)
    case Price => Amount(x.price)
    case CreatedAt => Stamp(x.createdAt)
    case Seller => Owner(x.seller)
    case Major => Text(x.major)
    case Professor => Text(x.professor)
    case Category => Text(x.category)
    case CourseCode => Text(x.courseCode)
    case AmountUsage => Text(x.amountUsage)
    case PaymentMethods => Text(x.paymentMethods)
    case AdditionalInfo => Text(x.additionalInfo)
    case OutcomeDescription => Text(x.outcomeDescription)
  }

  // ---------------------------------------------------------------------------
  // Choice lists

  type Choices = seq<(string, string)>

  const MajorChoices: Choices := [
    ("advertising", "Advertising"),
    ("animation", "Animation"),
    ("3d_animation", "3D Animation and Visual Effects"),
    ("comics", "Comics"),
    ("design", "Design"),
    ("film", "Film"),
    ("fine_arts", "Fine Arts"),
    ("illustration", "Illustration"),
    ("photography", "Photography & Video"),
    ("visual_studies", "Visual and Critical Studies"),
    ("art_history", "Art History"),
    ("humanities", "Humanities and Sciences"),
    ("others", "Others")
  ]

  const CategoryChoices: Choices := [
    ("paints", "Paints"),
    ("brushes", "Brushes"),
    ("papers", "Papers/Canvas"),
    ("tools", "Tools"),
    ("mediums", "Mediums"),
    ("markers", "Markers/Ink"),
    ("pencils", "Pencils"),
    ("pastels", "Pastels"),
    ("modeling", "Modeling"),
    ("textbook", "Textbook"),
    ("filming", "Filming Device"),
    ("electronic", "Electronic Device")
  ]

  /** The stored keys of a choice list, in order. */
  function Keys(choices: Choices): seq<string>
  {
    seq(|choices|, i requires 0 <= i < |choices| => choices[i].0)
  }

  ghost predicate DistinctKeys(choices: Choices)
  {
    forall i, j :: 0 <= i < j < |choices| ==> choices[i].0 != choices[j].0
  }

  /** `dict(choices).get(key)`: the label of `key`; with repeated keys the
      last pair wins, as in Python's dict constructor. */
  function Label(choices: Choices, key: string): (r: Option<string>)
    ensures r.Some? <==> key in Keys(choices)
    ensures r.Some? ==> (key, r.value) in choices
  {
    if choices == [] then None
    else
      var n := |choices| - 1;
      assert Keys(choices) == Keys(choices[..n]) + [choices[n].0];
      if choices[n].0 == key then Some(choices[n].1)
      else Label(choices[..n], key)
  }

  /** With distinct keys the key-to-label lookup is exactly the list's pairs. */
  lemma LabelOfDistinct(choices: Choices, key: string, lbl: string)
    requires DistinctKeys(choices)
    ensures Label(choices, key) == Some(lbl) <==> (key, lbl) in choices
  {
    if (key, lbl) in choices {
      var i :| 0 <= i < |choices| && choices[i] == (key, lbl);
      assert Keys(choices)[i] == key;
      var r := Label(choices, key);
      var j :| 0 <= j < |choices| && choices[j] == (key, r.value);
      assert i == j;
    }
  }

  lemma MajorChoicesWellFormed()
    ensures |MajorChoices| == 13 && DistinctKeys(MajorChoices)
    ensures forall k :: k in Keys(MajorChoices) ==> 0 < |k| <= ChoiceMaxLength
  {
  }

  lemma CategoryChoicesWellFormed()
    ensures |CategoryChoices| == 12 && DistinctKeys(CategoryChoices)
    ensures forall k :: k in Keys(CategoryChoices) ==> 0 < |k| <= ChoiceMaxLength
  {
  }

  /** A field declared with `choices=` and `blank=True`. */
  predicate ValidChoice(choices: Choices, v: string)
  {
    v == "" || v in Keys(choices)
  }

  // ---------------------------------------------------------------------------
  // Field constraints

  const NameMaxLength := 200
  const ProfessorMaxLength := 100
  const CourseCodeMaxLength := 50
  const PaymentMethodsMaxLength := 200
  const ChoiceMaxLength := 50
  const MaxDigits := 10
  const DecimalPlaces := 2

  function Pow10(n: nat): (r: nat)
    ensures r >= 1
  {
    if n == 0 then 1 else 10 * Pow10(n - 1)
  }

  function Abs(n: int): nat
  {
    if n < 0 then -n else n
  }

  /** The length of Python's digit tuple for a magnitude (zero has one digit). */
  function NumDigits(n: nat): (r: nat)
    ensures r >= 1
  {
    if n < 10 then 1 else 1 + NumDigits(n / 10)
  }

  lemma {:induction false} NumDigitsBound(n: nat, k: nat)
    requires k >= 1
    ensures NumDigits(n) <= k <==> n < Pow10(k)
    decreases n
  {
    if n >= 10 {
      if k == 1 {
        assert Pow10(1) == 10;
      } else {
        NumDigitsBound(n / 10, k - 1);
        assert n / 10 < Pow10(k - 1) <==> n < 10 * Pow10(k - 1);
      }
    } else {
      assert Pow10(k) == 10 * Pow10(k - 1);
    }
  }

  /** Digit count of a Decimal as DecimalValidator measures it: when the
      exponent reaches past the digit tuple, the leading zeros count. */
  function DigitCount(d: Decimal): nat
  {
    var n := NumDigits(Abs(d.unscaled));
    if d.places > n then d.places else n
  }

  /** DecimalField(max_digits=10, decimal_places=2): at most 10 digits, at most
      2 of them after the point, at most 8 before it. No sign constraint. */
  predicate ValidPrice(d: Decimal)
  {
    && DigitCount(d) <= MaxDigits
    && d.places <= DecimalPlaces
    && DigitCount(d) - d.places <= MaxDigits - DecimalPlaces
  }

  /** The price in cents; exact because at most two places are present. */
  function Cents(d: Decimal): int
    requires d.places <= DecimalPlaces
  {
    d.unscaled * Pow10(DecimalPlaces - d.places)
  }

  /** The digit rule is the same as: whole cents, of magnitude below 10^10. */
  lemma {:induction false} ValidPriceIsCentsBound(d: Decimal)
    ensures ValidPrice(d) <==> d.places <= DecimalPlaces && -(Pow10(MaxDigits) as int) < Cents(d) < Pow10(MaxDigits)
  {
    ValidPriceIsDigitBound(d);
    if d.places <= DecimalPlaces {
      var a := Abs(d.unscaled);
      NumDigitsBound(a, MaxDigits - DecimalPlaces + d.places);
      ScaledBelow(a, d.places);
      CentsMagnitude(d);
    }
  }

  /** With at most two places, the digit rule only bounds the whole digits. */
  lemma ValidPriceIsDigitBound(d: Decimal)
    ensures ValidPrice(d) <==>
      d.places <= DecimalPlaces && NumDigits(Abs(d.unscaled)) <= MaxDigits - DecimalPlaces + d.places
  {
  }

  /** Scaling to cents preserves the bound: a < 10^(8+p) iff a * 10^(2-p) < 10^10. */
  lemma {:induction false} ScaledBelow(a: nat, p: nat)
    requires p <= DecimalPlaces
    ensures a * Pow10(DecimalPlaces - p) < Pow10(MaxDigits) <==> a < Pow10(MaxDigits - DecimalPlaces + p)
  {
    var top := Pow10(MaxDigits - DecimalPlaces + p);
    var scale := Pow10(DecimalPlaces - p);
    Pow10Add(MaxDigits - DecimalPlaces + p, DecimalPlaces - p);
    assert Pow10(MaxDigits) == top * scale;
    if a < top {
      assert a * scale <= (top - 1) * scale;
    } else {
      assert a * scale >= top * scale;
    }
  }

  lemma CentsMagnitude(d: Decimal)
    requires d.places <= DecimalPlaces
    ensures Abs(Cents(d)) == Abs(d.unscaled) * Pow10(DecimalPlaces - d.places)
  {
    var scale := Pow10(DecimalPlaces - d.places);
    if d.unscaled < 0 {
      assert d.unscaled * scale == -((-d.unscaled) * scale);
    }
  }

  lemma {:induction false} Pow10Add(m: nat, n: nat)
    ensures Pow10(m + n) == Pow10(m) * Pow10(n)
    decreases m
  {
    if m > 0 {
      Pow10Add(m - 1, n);
    }
  }

  /** Negating a price never changes whether it is accepted. */
  lemma PriceSignIsFree(d: Decimal)
    ensures ValidPrice(d) <==> ValidPrice(Decimal(-d.unscaled, d.places))
  {
  }

  /** What the column definition of each `Goods` field accepts. */
  predicate FieldValid(fn: FieldName, v: Value)
  {
    match fn
    case Name => v.Text? && 1 <= |v.s| <= NameMaxLength
    case Price => v.Amount? && ValidPrice(v.d)
    case Major => v.Text? && |v.s| <= ChoiceMaxLength && ValidChoice(MajorChoices, v.s)
    case Professor => v.Text? && |v.s| <= ProfessorMaxLength
    case Category => v.Text? && |v.s| <= ChoiceMaxLength && ValidChoice(CategoryChoices, v.s)
    case CourseCode => v.Text? && |v.s| <= CourseCodeMaxLength
    case PaymentMethods => v.Text? && |v.s| <= PaymentMethodsMaxLength
    case Description | AmountUsage | AdditionalInfo | OutcomeDescription => v.Text?
    case Id => v.Key?
    case CreatedAt => v.Stamp?
    case Seller => v.Owner?
  }

  /** A row every one of whose fields passes its column's validation. */
  predicate ValidItem(x: Item)
  {
    forall fn :: FieldValid(fn, Get(x, fn))
  }

  /** The field rules written out: a required name of at most 200 characters,
      a price within the digit limits, blank-or-listed major and category,
      and length caps on professor, course code and payment methods. */
  lemma ValidItemIff(x: Item)
    ensures ValidItem(x) <==>
      && 1 <= |x.name| <= NameMaxLength
      && ValidPrice(x.price)
      && ValidChoice(MajorChoices, x.major)
      && |x.professor| <= ProfessorMaxLength
      && ValidChoice(CategoryChoices, x.category)
      && |x.courseCode| <= CourseCodeMaxLength
      && |x.paymentMethods| <= PaymentMethodsMaxLength
  {
    ValidItemByField(x);
    ChoiceFitsColumn(MajorChoices, x.major);
    ChoiceFitsColumn(CategoryChoices, x.category);
  }

  /** Only seven fields have rules that can fail. */
  lemma ValidItemByField(x: Item)
    ensures ValidItem(x) <==>
      && FieldValid(Name, Get(x, Name))
      && FieldValid(Price, Get(x, Price))
      && FieldValid(Major, Get(x, Major))
      && FieldValid(Professor, Get(x, Professor))
      && FieldValid(Category, Get(x, Category))
      && FieldValid(CourseCode, Get(x, CourseCode))
      && FieldValid(PaymentMethods, Get(x, PaymentMethods))
  {
  }

  /** Every listed key fits the 50-character column, so a valid choice does. */
  lemma ChoiceFitsColumn(choices: Choices, v: string)
    requires choices == MajorChoices || choices == CategoryChoices
    ensures ValidChoice(choices, v) ==> |v| <= ChoiceMaxLength
  {
    if choices == MajorChoices {
      MajorChoicesWellFormed();
    } else {
      CategoryChoicesWellFormed();
    }
  }

  // ---------------------------------------------------------------------------
  // Ordering

  /** `ordering = ['-created_at']`: newest first. */
  ghost predicate NewestFirst(items: seq<Item>)
  {
    forall i, j :: 0 <= i < j < |items| ==> items[i].createdAt >= items[j].createdAt
  }

  /** Images as posted: numbered 0, 1, 2, ... in list position. */
  ghost predicate NumberedFromZero(imgs: seq<Image>)
  {
    forall i :: 0 <= i < |imgs| ==> imgs[i].order == i
  }

  /** `ordering = ['order']`: ascending display order. */
  ghost predicate InDisplayOrder(imgs: seq<Image>)
  {
    forall i, j :: 0 <= i < j < |imgs| ==> imgs[i].order <= imgs[j].order
  }

  lemma NumberedIsDisplayOrder(imgs: seq<Image>)
    requires NumberedFromZero(imgs)
    ensures InDisplayOrder(imgs)
  {
  }
}
