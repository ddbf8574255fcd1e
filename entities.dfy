/** The records the service layer works on: the stored entity and the two request DTOs. */
module Entities {
  import opened Common

  /** com.game.entity.Race; its constants are compared only for equality. */
  datatype Race = Race(constant: string)

  /** com.game.entity.Profession; its constants are compared only for equality. */
  datatype Profession = Profession(constant: string)

  /** com.game.controller.PlayerOrder: the single ascending sort key of a listing. */
  datatype PlayerOrder = ID | NAME | EXPERIENCE | BIRTHDAY | LEVEL

  /** A stored player; `birthday` is a java.util.Date as epoch milliseconds. */
  datatype Player = Player(
    id: int,
    name: string,
    title: string,
    race: Race,
    profession: Profession,
    birthday: int,
    banned: bool,
    experience: int,
    level: int,
    untilNextLevel: int)

  /** The body of a create or update request; every field may be null. */
  datatype PlayerDto = PlayerDto(
    name: Option<string>,
    title: Option<string>,
    race: Option<Race>,
    profession: Option<Profession>,
    birthday: Option<int>,
    banned: Option<bool>,
    experience: Option<int>)

  /** The filter, order and page of a listing or count request. A numeric bound of 0 means "no bound". */
  datatype RequestDto = RequestDto(
    name: Option<string>,
    title: Option<string>,
    race: Option<Race>,
    profession: Option<Profession>,
    after: int,
    before: int,
    banned: Option<bool>,
    minExperience: int,
    maxExperience: int,
    minLevel: int,
    maxLevel: int,
    order: PlayerOrder,
    pageSize: int,
    pageNumber: int)
}
