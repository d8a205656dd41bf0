/**
 * The café records the screens read. Only the fields the modelled logic
 * touches are kept; the fixture is the four cafés of the demo catalogue.
 */
module Catalog {

  datatype Review = Review(id: string, user: string, rating: nat, comment: string, date: string)

  datatype Cafe = Cafe(
    id: string,
    name: string,
    address: string,
    priceRange: string,
    facilities: seq<string>,
    reviews: seq<Review>)

  function BrewHaven(): Cafe {
    Cafe("1", "Brew Haven", "Jl. Merdeka No. 45, Jakarta", "$$",
      ["Wifi", "Socket", "Toilet", "Prayer Room"],
      [Review("r1", "Sarah M.", 5, "Best coffee in town! The ambiance is perfect for working.", "2 days ago"),
       Review("r2", "John D.", 4, "Great coffee, but can get a bit crowded on weekends.", "1 week ago")])
  }

  function GardenBistro(): Cafe {
    Cafe("2", "Garden Bistro", "Jl. Pahlawan No. 12, Jakarta", "$$$",
      ["Wifi", "Parking", "Toilet", "Outdoor"],
      [Review("r3", "Mike R.", 5, "My dog loves this place! Great staff too.", "3 days ago")])
  }

  function MinimalistCoffee(): Cafe {
    Cafe("3", "Minimalist Coffee", "Jl. Sudirman Kav 5, Jakarta", "$", ["Wifi", "Socket"], [])
  }

  function RetroBeans(): Cafe {
    Cafe("4", "Retro Beans", "Jl. Kemang Raya, Jakarta", "$$", ["Wifi", "Toilet", "Live Music"], [])
  }

  /** The catalogue, in fixture order. */
  function Cafes(): seq<Cafe> {
    [BrewHaven(), GardenBistro(), MinimalistCoffee(), RetroBeans()]
  }
}
