/** `validate_product_form`: the checks an admin's product form must pass before a
    product is inserted (and before an update that supplies a new image). */
module ProductForm {
  import opened Common
  import opened Text

  /** The four ways a form can be refused, in the order they are checked. */
  datatype FormError = MissingField | PriceNotNumber | PriceNotPositive | BadImageFormat

  function Message(e: FormError): string {
    match e
    case MissingField => "All fields are required."
    case PriceNotNumber => "Price must be a number."
    case PriceNotPositive => "Price must be greater than zero."
    case BadImageFormat => "Invalid image format."
  }

  /** An image file name the store accepts: after lower-casing it ends in one of
      `.png`, `.jpg`, `.jpeg` or `.webp`. */
  predicate AllowedImage(image: string) {
    var low := Lower(image);
    EndsWith(low, ".png") || EndsWith(low, ".jpg") || EndsWith(low, ".jpeg") || EndsWith(low, ".webp")
  }

  /** Python's `price <= 0` on the value `float` returned: a finite value compares
      at most zero exactly when it is at most the underflow bound, since `float`
      rounds the positive values up to that bound to 0.0; an infinity compares
      by its sign and NaN compares false. */
  predicate AtMostZero(f: Float) {
    match f
    case Finite(v) => v <= UnderflowBound
    case Infinite(negative) => negative
    case NaN => false
  }

  /** Checks the (already stripped) fields in the source's order and reports the
      first failure, or None when the form is acceptable. */
  function ValidateProductForm(name: string, price: string, category: string, image: string): (r: Option<FormError>)
    ensures r == Some(MissingField) <==> name == [] || price == [] || category == [] || image == []
    ensures r == Some(PriceNotNumber) <==>
      name != [] && price != [] && category != [] && image != [] && ParseNumber(price).None?
    ensures r == Some(PriceNotPositive) <==>
      name != [] && price != [] && category != [] && image != []
      && ParseNumber(price).Some? && AtMostZero(ParseNumber(price).value)
    ensures r == Some(BadImageFormat) <==>
      name != [] && price != [] && category != [] && image != []
      && ParseNumber(price).Some? && !AtMostZero(ParseNumber(price).value) && !AllowedImage(image)
    ensures r == None <==> AcceptableProduct(name, price, category, image)
  {
    if name == [] || price == [] || category == [] || image == [] then
      Some(MissingField)
    else
      match ParseNumber(price)
      case None => Some(PriceNotNumber)
      case Some(value) =>
        if AtMostZero(value) then
          Some(PriceNotPositive)
        else if !AllowedImage(image) then
          Some(BadImageFormat)
        else
          None
  }

  /** What an accepted form guarantees about the product it describes: every field
      present, a price `float` reads and that does not compare at most zero, and
      an accepted image extension. */
  predicate AcceptableProduct(name: string, price: string, category: string, image: string) {
    && name != [] && category != [] && image != []
    && ParseNumber(price).Some? && !AtMostZero(ParseNumber(price).value)
    && AllowedImage(image)
  }

  /** The image names of the examples below. */
  lemma ExampleImages()
    ensures AllowedImage("b.png") && AllowedImage("B.PNG")
    ensures !AllowedImage("b.gif")
  {
    assert Lower("b.png") == "b.png";
    assert Lower("B.PNG") == "b.png";
    assert "b.png"[5 - 4..] == ".png";
    assert Lower("b.gif") == "b.gif";
    assert "b.gif"[5 - 4..] == ".gif";
    assert "b.gif"[5 - 5..] == "b.gif";
  }

  /** Example forms refused: a zero or negative-infinite price, a non-numeric
      price, a .gif image and an empty field, each with its message. */
  lemma RefusedExamples()
    ensures ValidateProductForm("Ball", "0", "Outdoor", "b.png") == Some(PriceNotPositive)
    ensures ValidateProductForm("Ball", "-inf", "Outdoor", "b.png") == Some(PriceNotPositive)
    ensures ValidateProductForm("Ball", "abc", "Outdoor", "b.png") == Some(PriceNotNumber)
    ensures ValidateProductForm("Ball", "10", "Outdoor", "b.gif") == Some(BadImageFormat)
    ensures ValidateProductForm("", "abc", "Outdoor", "b.gif") == Some(MissingField)
  {
    ExampleWholePrices();
    ExampleWordPrice();
    ExampleInfinitePrice();
    ExampleImages();
    UnderflowBoundBelowOne();
    FormVerdict("Ball", "0", "Outdoor", "b.png", Some(Finite(0.0)));
    FormVerdict("Ball", "-inf", "Outdoor", "b.png", Some(Infinite(true)));
    FormVerdict("Ball", "abc", "Outdoor", "b.png", None);
    FormVerdict("Ball", "10", "Outdoor", "b.gif", Some(Finite(10.0)));
  }

  /** Example forms accepted: a whole, a decimal and an exponent price, an
      upper-case extension, and the price "nan", since NaN does not compare at
      most zero. */
  lemma AcceptedExamples()
    ensures ValidateProductForm("Ball", "10", "Outdoor", "B.PNG") == None
    ensures ValidateProductForm("Ball", "19.99", "Outdoor", "b.png") == None
    ensures ValidateProductForm("Ball", "1e3", "Outdoor", "b.png") == None
    ensures ValidateProductForm("Ball", "nan", "Outdoor", "b.png") == None
  {
    ExampleWholePrices();
    ExampleDecimalPrice();
    ExampleExponentPrice();
    ExampleNanPrice();
    ExampleImages();
    UnderflowBoundBelowOne();
    FormVerdict("Ball", "10", "Outdoor", "B.PNG", Some(Finite(10.0)));
    FormVerdict("Ball", "19.99", "Outdoor", "b.png", Some(Finite(19.99)));
    FormVerdict("Ball", "1e3", "Outdoor", "b.png", Some(Finite(1000.0)));
    FormVerdict("Ball", "nan", "Outdoor", "b.png", Some(NaN));
  }

  /** A price "1e-k" with k at least 359 is a positive literal that `float`
      rounds to 0.0, so the form is refused as not positive. */
  lemma {:induction false} UnderflowRefused(name: string, price: string, category: string, image: string, k: nat)
    requires name != [] && category != [] && image != []
    requires price == "1e" + Numeral(-(k as int)) && k >= 359
    ensures ParseNumber(price).Some? && ParseNumber(price).value.Finite? && ParseNumber(price).value.value > 0.0
    ensures ValidateProductForm(name, price, category, image) == Some(PriceNotPositive)
  {
    NegativePowerPrice(k);
    TinyPowerUnderflows(k);
  }

  /** A price "1e-k" with k at most 300 survives as a positive double, so with
      an accepted image the form passes. */
  lemma {:induction false} SmallPriceAccepted(name: string, price: string, category: string, image: string, k: nat)
    requires name != [] && category != [] && AllowedImage(image)
    requires price == "1e" + Numeral(-(k as int)) && k <= 300
    ensures ValidateProductForm(name, price, category, image) == None
  {
    NegativePowerPrice(k);
    ModestPowerSurvives(k);
  }

  /** "1e-400" is a positive literal, yet the form is refused as not positive. */
  lemma UnderflowExample()
    ensures ParseNumber("1e-400").Some? && ParseNumber("1e-400").value.Finite?
    ensures ParseNumber("1e-400").value.value > 0.0
    ensures ValidateProductForm("Ball", "1e-400", "Outdoor", "b.png") == Some(PriceNotPositive)
  {
    HundredsNumeral(4);
    assert "1e" + ['-', DigitChar(4), '0', '0'] == "1e-400";
    UnderflowRefused("Ball", "1e-400", "Outdoor", "b.png", 400);
  }

  /** "1e-300" survives as a positive double, so the form is accepted. */
  lemma SmallPriceExample()
    ensures ValidateProductForm("Ball", "1e-300", "Outdoor", "b.png") == None
  {
    ExampleImages();
    HundredsNumeral(3);
    assert "1e" + ['-', DigitChar(3), '0', '0'] == "1e-300";
    SmallPriceAccepted("Ball", "1e-300", "Outdoor", "b.png", 300);
  }

  /** The verdict on a form whose fields are all present, from how its price
      reads. */
  lemma {:induction false} FormVerdict(name: string, price: string, category: string, image: string, reading: Option<Float>)
    requires name != [] && price != [] && category != [] && image != []
    requires ParseNumber(price) == reading
    ensures ValidateProductForm(name, price, category, image) ==
      if reading.None? then Some(PriceNotNumber)
      else if AtMostZero(reading.value) then Some(PriceNotPositive)
      else if AllowedImage(image) then None
      else Some(BadImageFormat)
  {
  }
}
