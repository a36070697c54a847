/**
 * The validation the forms of app/forms.py apply to a submission. `DataRequired`
 * refuses a string that is empty or only whitespace, and also a number equal to 0
 * (it tests the field's data for truth); `NumberRange(min = m)` refuses a number
 * below `m`; a `SelectField` refuses a value that is not one of its choices.
 */
module Forms {
  /** The ASCII characters `str.strip` removes: space, tab to carriage return, and 0x1C to 0x1F. */
  predicate IsSpace(c: char)
  {
    c == ' ' || '\t' <= c <= '\r' || '\U{1C}' <= c <= '\U{1F}'
  }

  /** `DataRequired` on a text field: something other than whitespace was entered. */
  predicate Present(s: string)
  {
    exists i :: 0 <= i < |s| && !IsSpace(s[i])
  }

  /** `RegistrationForm`: username, email and password are all required. */
  predicate RegistrationFormValid(username: string, email: string, password: string)
  {
    Present(username) && Present(email) && Present(password)
  }

  /** `LoginForm`: email and password are required. */
  predicate LoginFormValid(email: string, password: string)
  {
    Present(email) && Present(password)
  }

  /** `ProductForm`: a name, and a price that is non-zero (`DataRequired`) and at least 0. */
  predicate ProductFormValid(name: string, price: real)
  {
    Present(name) && price != 0.0 && price >= 0.0
  }

  /** `OrderForm`: a product among the offered `choices`, and a quantity of at least 1. */
  predicate OrderFormValid(productId: int, choices: set<int>, quantity: int)
  {
    productId != 0 && productId in choices && quantity != 0 && quantity >= 1
  }

  /** `RestockForm`: an amount of at least 1. */
  predicate RestockFormValid(amount: int)
  {
    amount != 0 && amount >= 1
  }

  /** A product can only be added at a strictly positive price: 0 is refused by `DataRequired`. */
  lemma ProductPriceIsPositive(name: string, price: real)
    ensures ProductFormValid(name, price) <==> Present(name) && price > 0.0
  {
  }
}
