/**
 * The checkout page: a five-field billing form validated rule by rule into a
 * field-keyed error map, per-field error clearing on edit, and the order
 * submission, whose outcome either confirms the order and removes the stored
 * cart or leaves everything as it was.
 */
module Checkout {
  import opened Wrappers
  import Strings
  import opened CartStore

  // ---------------------------------------------------------------------
  // The form
  // ---------------------------------------------------------------------

  /** The inputs, by their `name` attribute. */
  datatype Field = Name | Email | Address | PaymentMethod | PaymentDetails

  datatype Form = Form(name: string, email: string, address: string, paymentMethod: string, paymentDetails: string)
  {
    function Get(f: Field): string {
      match f
      case Name => name
      case Email => email
      case Address => address
      case PaymentMethod => paymentMethod
      case PaymentDetails => paymentDetails
    }

    /** `{ ...form, [f]: v }`: field `f` takes `v`, every other field keeps its value. */
    function With(f: Field, v: string): (r: Form)
      ensures r.Get(f) == v
      ensures forall g :: g != f ==> r.Get(g) == Get(g)
    {
      match f
      case Name => this.(name := v)
      case Email => this.(email := v)
      case Address => this.(address := v)
      case PaymentMethod => this.(paymentMethod := v)
      case PaymentDetails => this.(paymentDetails := v)
    }
  }

  /** The form as the page first shows it: credit card selected, every other field empty. */
  const InitialForm := Form("", "", "", "credit_card", "")

  /** The message shown under a field that fails its rule. */
  function ErrorMessage(f: Field): string {
    match f
    case Name => NameRequired
    case Email => EmailRequired
    case Address => AddressRequired
    case PaymentMethod => MethodRequired
    case PaymentDetails => DetailsRequired
  }

  const NameRequired := "Full name is required."
  const EmailRequired := "Valid email is required."
  const AddressRequired := "Shipping address is required."
  const MethodRequired := "Please select a payment method."
  const DetailsRequired := "Payment details are required."

  /**
   * `/\S+@\S+\.\S+/.test(s)`: somewhere in `s` an `@` and, at least two
   * positions later, a `.`, with a non-space character just before the `@`,
   * only non-space characters between the two, and a non-space character
   * just after the `.`.
   */
  predicate EmailPattern(s: string) {
    exists p, q :: 0 <= p < q < |s| && EmailMatchAt(s, p, q)
  }

  /** The pattern matches with its `@` at `p` and its `.` at `q`. */
  predicate EmailMatchAt(s: string, p: int, q: int) {
    1 <= p && p + 2 <= q && q + 2 <= |s| && s[p] == '@' && s[q] == '.' &&
    !Strings.IsSpace(s[p - 1]) && !Strings.IsSpace(s[q + 1]) && NoSpaceBetween(s, p, q)
  }

  /** Every character strictly between positions `p` and `q` is a non-space. */
  predicate NoSpaceBetween(s: string, p: int, q: int)
    requires 0 <= p <= q <= |s|
  {
    forall k :: p < k < q ==> !Strings.IsSpace(s[k])
  }

  /**
   * The rule each field must pass (lines 47 to 52 of the page). The page
   * tests `!value.trim()`; an empty trim is a blank value (see `RulesAsWritten`).
   */
  predicate FieldFails(form: Form, f: Field) {
    match f
    case Name => Strings.IsBlank(form.name)
    case Email => Strings.IsBlank(form.email) || !EmailPattern(form.email)
    case Address => Strings.IsBlank(form.address)
    case PaymentMethod => form.paymentMethod == ""
    case PaymentDetails => Strings.IsBlank(form.paymentDetails)
  }

  /** The rules agree with the page's own tests, which trim the text fields. */
  lemma RulesAsWritten(form: Form)
    ensures FieldFails(form, Name) <==> Strings.Trim(form.name) == ""
    ensures FieldFails(form, Email) <==> Strings.Trim(form.email) == "" || !EmailPattern(form.email)
    ensures FieldFails(form, Address) <==> Strings.Trim(form.address) == ""
    ensures FieldFails(form, PaymentMethod) <==> form.paymentMethod == ""
    ensures FieldFails(form, PaymentDetails) <==> Strings.Trim(form.paymentDetails) == ""
  {
  }

  /** The blank test on the email is subsumed by the pattern: the email fails exactly when it does not match. */
  lemma EmailRule(form: Form)
    ensures FieldFails(form, Email) <==> !EmailPattern(form.email)
  {
    if EmailPattern(form.email) {
      var p, q :| 0 <= p < q < |form.email| && EmailMatchAt(form.email, p, q);
      assert !Strings.IsBlank(form.email);
    }
  }

  /** "a@b.c" matches the pattern and "not-an-email" does not. */
  lemma EmailExamples()
    ensures EmailPattern("a@b.c")
    ensures !EmailPattern("not-an-email")
  {
    var s := "a@b.c";
    assert EmailMatchAt(s, 1, 3);
    var t := "not-an-email";
    assert forall i :: 0 <= i < |t| ==> t[i] != '@';
  }

  /**
   * `validateForm`'s rule-by-rule fill of `newErrors`: every rule is checked,
   * none stops the others, and the map holds a message exactly for each
   * failing field.
   */
  method CollectErrors(form: Form) returns (newErrors: map<Field, string>)
    ensures forall f :: f in newErrors <==> FieldFails(form, f)
    ensures forall f :: f in newErrors ==> newErrors[f] == ErrorMessage(f)
  {
    newErrors := map[];
    if Strings.IsBlank(form.name) {
      newErrors := newErrors[Name := ErrorMessage(Name)];
    }
    if Strings.IsBlank(form.email) || !EmailPattern(form.email) {
      newErrors := newErrors[Email := ErrorMessage(Email)];
    }
    if Strings.IsBlank(form.address) {
      newErrors := newErrors[Address := ErrorMessage(Address)];
    }
    if form.paymentMethod == "" {
      newErrors := newErrors[PaymentMethod := ErrorMessage(PaymentMethod)];
    }
    if Strings.IsBlank(form.paymentDetails) {
      newErrors := newErrors[PaymentDetails := ErrorMessage(PaymentDetails)];
    }
    forall f
      ensures f in newErrors <==> FieldFails(form, f)
    {
      match f
      case Name =>
      case Email =>
      case Address =>
      case PaymentMethod =>
      case PaymentDetails =>
    }
  }

  /** A form with a name, a well-formed email, an address, a payment method and payment details passes every rule. */
  lemma FilledFormPasses()
    ensures forall f :: !FieldFails(Form("Ada", "a@b.c", "1 Main St", "credit_card", "4111"), f)
  {
    var form := Form("Ada", "a@b.c", "1 Main St", "credit_card", "4111");
    EmailExamples();
    EmailRule(form);
    forall f
      ensures !FieldFails(form, f)
    {
      match f
      case Name => assert !Strings.IsSpace(form.name[0]);
      case Email =>
      case Address => assert !Strings.IsSpace(form.address[0]);
      case PaymentMethod =>
      case PaymentDetails => assert !Strings.IsSpace(form.paymentDetails[0]);
    }
  }

  /** With every other field filled in, the email "not-an-email" is the one failing field. */
  lemma InvalidEmailOnly(form: Form)
    requires form.email == "not-an-email"
    requires !FieldFails(form, Name) && !FieldFails(form, Address)
    requires !FieldFails(form, PaymentMethod) && !FieldFails(form, PaymentDetails)
    ensures forall f :: FieldFails(form, f) <==> f == Email
  {
    EmailExamples();
    EmailRule(form);
  }

  // ---------------------------------------------------------------------
  // The cart as the checkout page reads it, and the order
  // ---------------------------------------------------------------------

  /** The fields of a stored entry the checkout page uses. */
  datatype Line = Line(nid: string, title: string, price: real)

  /** An entry in the shape the cart page writes (a string title and a numeric price). */
  function ReadLine(r: RawItem): Option<Line> {
    if r.title.TitleText? && r.price.Some? && r.price.value.PriceNumber? then
      Some(Line(r.nid, r.title.text, r.price.value.amount))
    else None
  }

  /** All stored entries as lines, when every entry has the shape the page declares. */
  function ReadLines(entries: seq<RawItem>): (r: Option<seq<Line>>)
    ensures r.Some? <==> forall i :: 0 <= i < |entries| ==> ReadLine(entries[i]).Some?
    ensures r.Some? ==> |r.value| == |entries| && forall i :: 0 <= i < |entries| ==> Some(r.value[i]) == ReadLine(entries[i])
  {
    if entries == [] then Some([])
    else
      var first, rest := ReadLine(entries[0]), ReadLines(entries[1..]);
      if first.Some? && rest.Some? then Some([first.value] + rest.value) else None
  }

  function LinesOf(items: seq<CartItem>): seq<Line> {
    seq(|items|, i requires 0 <= i < |items| => Line(items[i].nid, items[i].title, items[i].price))
  }

  /** What the cart page stores, the checkout page reads back item for item. */
  lemma {:induction false} ReadsWhatCartWrote(items: seq<CartItem>)
    ensures ReadLines(Serialize(items)) == Some(LinesOf(items))
  {
    if items != [] {
      var entries := Serialize(items);
      assert entries[1..] == Serialize(items[1..]);
      ReadsWhatCartWrote(items[1..]);
      assert entries[0] == ToRaw(items[0]);
      assert ReadLine(entries[0]) == Some(LinesOf(items)[0]);
      assert ReadLines(entries) == Some([LinesOf(items)[0]] + LinesOf(items[1..]));
      assert LinesOf(items) == [LinesOf(items)[0]] + LinesOf(items[1..]);
    } else {
      assert Serialize(items) == [] && LinesOf(items) == [];
    }
  }

  datatype PurchasedCourse = PurchasedCourse(courseId: string, title: string, price: real)

  datatype Order = Order(
    title: string,
    userEmail: string,
    paymentMethod: string,
    paymentDetails: string,
    totalAmount: real,
    purchasedCourses: seq<PurchasedCourse>)

  /** `cart.reduce((sum, course) => sum + course.price, 0)`, a left fold. */
  function Total(cart: seq<Line>): real {
    if cart == [] then 0.0 else Total(cart[..|cart| - 1]) + cart[|cart| - 1].price
  }

  /** `cart.map(course => ({ course_id: course.nid, title, price }))`. */
  function CoursesOf(cart: seq<Line>): seq<PurchasedCourse> {
    seq(|cart|, i requires 0 <= i < |cart| => PurchasedCourse(cart[i].nid, cart[i].title, cart[i].price))
  }

  /** The sum of the prices of purchased courses, first course first. */
  function SumPrices(courses: seq<PurchasedCourse>): real {
    if courses == [] then 0.0 else courses[0].price + SumPrices(courses[1..])
  }

  lemma {:induction false} SumPricesSnoc(courses: seq<PurchasedCourse>, c: PurchasedCourse)
    ensures SumPrices(courses + [c]) == SumPrices(courses) + c.price
  {
    if courses != [] {
      assert (courses + [c])[1..] == courses[1..] + [c];
      SumPricesSnoc(courses[1..], c);
    }
  }

  /** The reduced total equals the sum of the prices listed in the order. */
  lemma {:induction false} TotalMatchesCourses(cart: seq<Line>)
    ensures Total(cart) == SumPrices(CoursesOf(cart))
  {
    if cart != [] {
      var n := |cart|;
      TotalMatchesCourses(cart[..n - 1]);
      assert CoursesOf(cart) == CoursesOf(cart[..n - 1]) + [CoursesOf(cart)[n - 1]];
      SumPricesSnoc(CoursesOf(cart[..n - 1]), CoursesOf(cart)[n - 1]);
    }
  }

  /** Prices that are never negative give a total that is never negative. */
  lemma {:induction false} TotalNonNegative(cart: seq<Line>)
    requires forall i :: 0 <= i < |cart| ==> cart[i].price >= 0.0
    ensures Total(cart) >= 0.0
  {
    if cart != [] {
      TotalNonNegative(cart[..|cart| - 1]);
    }
  }

  /**
   * The order record: titled after the buyer, listing the cart's courses one
   * for one and in order, with a total that is the sum of the listed prices.
   */
  function BuildOrder(form: Form, cart: seq<Line>): (o: Order)
    ensures o.title == "Order by " + form.name
    ensures o.userEmail == form.email && o.paymentMethod == form.paymentMethod
    ensures o.paymentDetails == form.paymentDetails
    ensures |o.purchasedCourses| == |cart|
    ensures forall i :: 0 <= i < |cart| ==>
      o.purchasedCourses[i] == PurchasedCourse(cart[i].nid, cart[i].title, cart[i].price)
    ensures o.totalAmount == SumPrices(o.purchasedCourses)
  {
    TotalMatchesCourses(cart);
    Order("Order by " + form.name, form.email, form.paymentMethod, form.paymentDetails, Total(cart), CoursesOf(cart))
  }

  // ---------------------------------------------------------------------
  // The page state
  // ---------------------------------------------------------------------

  class CheckoutPage {
    var cart: seq<Line>
    var form: Form
    var errors: map<Field, string>
    var isProcessing: bool
    var isPopupOpen: bool
    var store: StoredCart

    /** The page mounts with an empty cart, the initial form, no errors, idle and without the popup. */
    constructor(saved: StoredCart)
      ensures cart == [] && form == InitialForm && errors == map[]
      ensures !isProcessing && !isPopupOpen && store == saved
    {
      cart := [];
      form := InitialForm;
      errors := map[];
      isProcessing := false;
      isPopupOpen := false;
      store := saved;
    }

    /** The load effect: stored entries become the cart; nothing stored, or unparseable text, leaves it as it is. */
    method Load()
      requires store.Saved? ==> ReadLines(store.entries).Some?
      modifies this`cart
      ensures store.Saved? ==> cart == ReadLines(store.entries).value
      ensures !store.Saved? ==> cart == old(cart)
    {
      if store.Saved? {
        cart := ReadLines(store.entries).value;
      }
    }

    /** `handleInputChange`: the edited field takes the new value and only its error is cleared. */
    method HandleInputChange(f: Field, v: string)
      modifies this`form, this`errors
      ensures form == old(form).With(f, v)
      ensures errors == old(errors)[f := ""]
    {
      form := form.With(f, v);
      errors := errors[f := ""];
    }

    /** `validateForm`: the error map is replaced by the current failures; true when there are none. */
    method ValidateForm() returns (valid: bool)
      modifies this`errors
      ensures forall f :: f in errors <==> FieldFails(form, f)
      ensures forall f :: f in errors ==> errors[f] == ErrorMessage(f)
      ensures valid <==> errors == map[]
      ensures valid <==> forall f :: !FieldFails(form, f)
    {
      var newErrors := CollectErrors(form);
      errors := newErrors;
      valid := |newErrors| == 0;
      assert valid ==> newErrors == map[];
      assert !valid ==> exists f :: f in newErrors;
    }

    /**
     * `handlePlaceOrder` up to the request: an invalid form stops here; a
     * valid one sets the page processing and sends the order built from the
     * form and the cart.
     */
    method PlaceOrder() returns (sent: Option<Order>)
      modifies this`errors, this`isProcessing
      ensures forall f :: f in errors <==> FieldFails(form, f)
      ensures forall f :: f in errors ==> errors[f] == ErrorMessage(f)
      ensures sent.None? <==> exists f :: FieldFails(form, f)
      ensures sent.None? ==> isProcessing == old(isProcessing)
      ensures sent.Some? ==> isProcessing && sent.value == BuildOrder(form, cart)
    {
      var valid := ValidateForm();
      if !valid {
        return None;
      }
      isProcessing := true;
      sent := Some(BuildOrder(form, cart));
    }

    /**
     * The rest of `handlePlaceOrder` once the request settles: success opens
     * the confirmation and removes the stored cart; failure leaves both as
     * they were. Processing ends either way.
     */
    method CompleteOrder(ok: bool)
      modifies this`isPopupOpen, this`store, this`isProcessing
      ensures !isProcessing
      ensures ok ==> isPopupOpen && store == Absent
      ensures !ok ==> isPopupOpen == old(isPopupOpen) && store == old(store)
    {
      if ok {
        isPopupOpen := true;
        store := Absent;
      }
      isProcessing := false;
    }
  }

  /** A buyer fills in the form correctly and the order goes through: the stored cart is gone and the popup shows. */
  method SuccessfulCheckout(items: seq<CartItem>) returns (sent: Option<Order>, page: CheckoutPage)
    ensures sent == Some(BuildOrder(Form("Ada", "a@b.c", "1 Main St", "credit_card", "4111"), LinesOf(items)))
    ensures page.store == Absent && page.isPopupOpen && !page.isProcessing
  {
    page := new CheckoutPage(Saved(Serialize(items)));
    ReadsWhatCartWrote(items);
    page.Load();
    assert page.cart == LinesOf(items);
    page.HandleInputChange(Name, "Ada");
    page.HandleInputChange(Email, "a@b.c");
    page.HandleInputChange(Address, "1 Main St");
    page.HandleInputChange(PaymentDetails, "4111");
    assert page.form == Form("Ada", "a@b.c", "1 Main St", "credit_card", "4111");
    FilledFormPasses();
    sent := page.PlaceOrder();
    assert sent == Some(BuildOrder(page.form, LinesOf(items)));
    page.CompleteOrder(true);
    assert page.store == Absent && page.isPopupOpen && !page.isProcessing;
  }
}
