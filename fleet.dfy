/** The vehicle vocabulary shared by the vehicle form and the vehicle
    importer. */
module Fleet {
  import opened Wrappers

  /** `parseFloat` or `parseInt` on a piece of text: `None` stands for NaN.
      The number syntax JavaScript accepts is not modelled. */
  type NumberParser = string -> Option<real>

  /** The vehicle states the form offers; a new vehicle is `Available`. */
  datatype VehicleStatus = Available | InTransit | InMaintenance | BrokenDown
}
