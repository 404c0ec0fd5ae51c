/** The record stored in routes and managers. The modelled code reads only
    `hackingDifficulty`; the other fields take part in equality, which is
    structural, as for a Python dataclass. */
module Computers {

  datatype Computer = Computer(
    name: string,
    hackingDifficulty: int,
    hackedValue: int,
    riskFactor: real)
}
