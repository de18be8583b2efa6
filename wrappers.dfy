/** The nullable slots of the editor (`selectedNodeId`, `connectingNodeId`, the
    context menu, a prompt's answer) as an explicit option. */
module Wrappers {

  datatype Option<+T> = None | Some(value: T)

}
