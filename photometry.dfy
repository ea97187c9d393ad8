/** The values that flow between the stages of the reduction, the ways a run
    can fail, and the external numeric primitives the scripts rely on. */
module Photometry {
  import opened Outcomes

  /** What `read_mag` returns for one exposure: per star, in file order, the
      flux (counts), the instrumental magnitude and its error. */
  datatype Measurements = Measurements(flux: seq<real>, mag: seq<real>, err: seq<real>) {
    predicate Aligned() { |flux| == |mag| == |err| }
  }

  /** What `diffmag` and `diffmag2` return for one exposure: per star, the
      differential magnitude and its error. */
  datatype Diff = Diff(mag: seq<real>, err: seq<real>)

  /** Every way the two scripts stop before producing a light curve. */
  datatype Failure =
    | NoSuchFile(name: string)     // open() of a file that does not exist: IOError
    | BlankLine(name: string)      // `i.strip()[0]` or `i.split()[0]` on a blank line: IndexError
    | MissingField(name: string)   // 17apermag_caha.py: fewer tokens than the offset read: IndexError
    | BadNumber(name: string)      // 17apermag_caha.py: float() refused a field; `name` is written to error.log
    | Exit(logged: string)         // errmag.py: `logged` is appended to ../errfilelst, exit status 1
    | MathDomain                   // log10 of a non-positive total comparison flux: ValueError
    | ZeroDivision                 // calmeanstd on an empty comparison set: ZeroDivisionError
    | SlotIndex                    // diffmag2: index -2 of a list with fewer than two stars: IndexError
    | Ragged                       // exposures with different numbers of stars

  /** The file system: each existing path with the lines of its file. */
  type Files = map<string, seq<string>>

  /** The primitives the reduction takes from Python and its math library. */
  datatype Primitives = Primitives(
    parse: string -> Option<real>,  // float() on one token; None where it raises ValueError
    fluxOf: real -> real,           // m |-> 10 ** (-0.4 * m)
    magOf: real -> real,            // F |-> -2.5 * log10(F)
    sqrt: real -> real)             // x |-> x ** 0.5
}
