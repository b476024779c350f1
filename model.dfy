/** The rows of the database schema that the helpers read, as plain
    records. Only the columns the helpers look at are kept; the ORM
    relationships become fields holding the related rows. Dates are
    integers that order like the datetimes they stand for. */
module Model {

  /** A gear category (tents, sleeping bags, sleeping pads). */
  datatype Category = Category(catId: int, catName: string)

  /** A product listed for rent. `catName` is the name of the product's
      category, reached in the source through `product.category`. */
  datatype Product = Product(
    prodId: int,
    catId: int,
    catName: string,
    brandId: int,
    ownerUserId: int,
    available: bool,
    availStartDate: int,
    availEndDate: int,
    pricePerDay: real)

  /** A user together with the products they list (`user.products`). */
  datatype User = User(userId: int, active: bool, postalcode: string, products: seq<Product>)

  /** One rental of one product. */
  datatype History = History(
    historyId: int,
    prodId: int,
    renterUserId: int,
    rentalSubmissionDate: int,
    startDate: int,
    endDate: int,
    totalCost: real)

  /** A star rating with an optional comment. */
  datatype Rating = Rating(ratingId: int, stars: int, comments: string)
}
