// Small functions that several modules use.
module Basics {
  function Min(a: nat, b: nat): nat {
    if a < b then a else b
  }

  // The parts with the separator between neighbours.
  function Join(sep: string, parts: seq<string>): string {
    if |parts| == 0 then ""
    else if |parts| == 1 then parts[0]
    else Join(sep, parts[..|parts| - 1]) + sep + parts[|parts| - 1]
  }
}
