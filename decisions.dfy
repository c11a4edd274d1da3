/** The disposition labels every agent speaks in. */
module Decisions {

  /** `Uncertain` is what an expert vote becomes when its oracle call fails;
      it is never a final verdict. */
  datatype Decision = Admit | Discharge | Uncertain

  /** The label as the Python code writes it. */
  function DecisionName(d: Decision): string {
    match d
    case Admit => "Admit"
    case Discharge => "Discharge"
    case Uncertain => "Uncertain"
  }
}
