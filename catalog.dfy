/** The property record shared by the three pages. Each page declares its own
    subset of the catalog document's fields; this record holds the fields the
    modelled logic reads. Prices and sizes are whole numbers. */
module Catalog {

  datatype Property = Property(
    id: string,
    name: string,
    location: string,
    price: int,
    size: int,
    bedrooms: int,
    available: bool,
    featured: bool,
    mainImage: string,
    images: seq<string>)
}
