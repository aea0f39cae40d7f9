/** One step of a scenario: the screen to show and the characters that advance past it. */
module Content {

  datatype Content = Content(screen: string, key: string)
}
