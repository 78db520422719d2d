/** The status codes an AIR node returns to the code that runs it
    (`AIR_Status` / `Air_Node::Status`). */
module AirStatus {

  datatype Status =
    | Next
    | BreakUnspec
    | BreakSwitch
    | BreakWhile
    | BreakFor
    | ContinueUnspec
    | ContinueWhile
    | ContinueFor
    | Return
}
