/** The optional value used wherever the game or the planner answers "nothing": no unit found,
    no route, no move this tick. */
module Wrappers {

  datatype Option<+T> = None | Some(value: T)
}
