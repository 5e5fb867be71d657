/** The records of users and of the categories they are shown under. */
module Users {
  class CategoryEntry {
    const name: string
    var count: int

    /** new_category_entry */
    constructor (name: string)
      ensures this.name == name && count == 0
    {
      this.name, count := name, 0;
    }
  }

  /** A user; the category name is the one of the message that introduced the user, and stays. */
  class UserEntry {
    const ipaddr: string
    const category: string
    var categoryEntry: CategoryEntry?

    /** new_user_entry */
    constructor (ipaddr: string, category: string)
      ensures this.ipaddr == ipaddr && this.category == category && categoryEntry == null
    {
      this.ipaddr, this.category, categoryEntry := ipaddr, category, null;
    }
  }
}
